/** `update_events_group1_group2` of helper_functions.py: give every prime, target and
    response trigger of a session its condition code, read from the behavioural log.

    The pure functions below say what one pass over the trigger rows does; the method
    `UpdateEventsGroup1Group2` does it in place on the events array and is proved to
    agree with them. */
module Relabel {
  import opened Dicts
  import opened Paths
  import opened Events
  import opened Taxonomy
  import opened Labels

  /** The exceptions the function can raise: `logfile.iloc` past either end of the
      log, and `event_id[...]` on a label the dict lacks. */
  datatype Error = IndexError(position: int) | KeyError(key: string)

  datatype Result<T> = Ok(value: T) | Err(error: Error)

  /** `logfile.iloc[i]`: a negative position counts from the end of the log. */
  function ILoc(log: seq<Trial>, i: int): (r: Result<Trial>)
    ensures r.Ok? <==> -|log| <= i < |log|
    ensures r.Ok? ==> r.value == log[if i < 0 then |log| + i else i]
    ensures r.Err? ==> r.error == IndexError(i)
  {
    if 0 <= i < |log| then Ok(log[i])
    else if -|log| <= i < 0 then Ok(log[|log| + i])
    else Err(IndexError(i))
  }

  /** The code of one row while lines 79-104 run on it, and the exception that stopped
      them, if any (the code is then the last one written). */
  datatype Rewrite = Rewrite(code: int, failure: Option<Error>)

  /** `tmp_event[-1] = event_id[key]` */
  function Assign(code: int, d: Dict, key: string): Rewrite {
    match Get(d, key)
    case Some(c) => Rewrite(c, None)
    case None => Rewrite(code, Some(KeyError(key)))
  }

  /** `if event[-1] == trigger: tmp_event[-1] = event_id[key]`, run after the earlier
      ifs. `tmp_event` is the row itself, so the test reads the code as they left it. */
  function AssignIf(r: Rewrite, trigger: int, d: Dict, key: string): Rewrite {
    if r.failure.Some? || r.code != trigger then r else Assign(r.code, d, key)
  }

  /** Lines 79-104 on a row with code `code` and log row `t`. */
  function RewriteRow(code: int, t: Trial, d: Dict): Rewrite {
    var prime := AssignIf(Rewrite(code, None), 10, d, PrimeLabel(t));
    var target := AssignIf(prime, 20, d, TargetLabel(t));
    AssignIf(target, 30, d, ResponseLabel(t))
  }

  /** The state of the loop of lines 61-106 between two rows: `counter`, the rows of
      the events array as far as the loop got, `updated_events`, and the exception in
      flight. After an exception the remaining rows of the array are left as they are. */
  datatype Pass = Pass(counter: int, rows: seq<Event>, out: seq<Event>, failure: Option<Error>)

  /** What lines 79-104 do to one row, given its code and its log row. */
  type RowRewrite = (int, Trial) -> Rewrite

  /** Lines 79-104 with the dict `d`. */
  function Rewriter(d: Dict): RowRewrite {
    (code: int, t: Trial) => RewriteRow(code, t, d)
  }

  /** One iteration of the loop, with `rw` for lines 79-104. */
  function Step(p: Pass, e: Event, rw: RowRewrite, log: seq<Trial>): Pass {
    if p.failure.Some? || e.code !in RawCodes then p.(rows := p.rows + [e])
    else
      var counter := if e.code == 10 then p.counter + 1 else p.counter;
      match ILoc(log, counter)
      case Err(err) => Pass(counter, p.rows + [e], p.out, Some(err))
      case Ok(t) =>
        var r := rw(e.code, t);
        var e' := e.(code := r.code);
        if r.failure.Some? then Pass(counter, p.rows + [e'], p.out, r.failure)
        else Pass(counter, p.rows + [e'], p.out + [e'], None)
  }

  /** The loop over the rows `es`, from `counter = -1` and an empty `updated_events`. */
  function Scan(es: seq<Event>, rw: RowRewrite, log: seq<Trial>): Pass
    decreases |es|
  {
    if es == [] then Pass(-1, [], [], None)
    else Step(Scan(es[..|es| - 1], rw, log), es[|es| - 1], rw, log)
  }

  /** What the function returns, or the exception it raises. */
  function Outcome(p: Pass): Result<seq<Event>> {
    if p.failure.Some? then Err(p.failure.value) else Ok(p.out)
  }

  /** The function itself. `events` is the array of trigger rows, which the loop
      rewrites in place through the alias `tmp_event`; the result is the array of the
      rewritten prime, target and response rows. */
  method UpdateEventsGroup1Group2(events: array<Event>, eventId: Dict, logfile: seq<Trial>)
    returns (r: Result<seq<Event>>)
    modifies events
    ensures events[..] == Scan(old(events[..]), Rewriter(eventId), logfile).rows
    ensures r == Outcome(Scan(old(events[..]), Rewriter(eventId), logfile))
  {
    ghost var es := events[..];
    ghost var rw := Rewriter(eventId);
    var updated: seq<Event> := [];
    var counter := -1;
    var i := 0;
    while i < events.Length
      invariant 0 <= i <= events.Length
      invariant Scan(es[..i], rw, logfile) == Pass(counter, events[..i], updated, None)
      invariant events[i..] == es[i..]
    {
      ghost var before := events[..];
      assert before[i] == es[i];
      var next, kept, failure := Visit(events, i, counter, eventId, logfile);
      LoopStep(es, i, counter, updated, before, events[..], next, kept, failure, rw, logfile);
      if failure.Some? {
        return Err(failure.value);
      }
      counter, updated := next, updated + kept;
      i := i + 1;
    }
    assert es[..i] == es;
    assert events[..i] == events[..];
    return Ok(updated);
  }

  /** What one iteration of the loop does to the state it keeps: the rows so far, the
      rest of the array, and the exception that ends the function. */
  lemma LoopStep(es: seq<Event>, i: int, counter: int, updated: seq<Event>, before: seq<Event>,
                 after: seq<Event>, next: int, kept: seq<Event>, failure: Option<Error>,
                 rw: RowRewrite, log: seq<Trial>)
    requires 0 <= i < |es| == |before|
    requires Scan(es[..i], rw, log) == Pass(counter, before[..i], updated, None)
    requires before[i..] == es[i..]
    requires var q := Step(Pass(counter, [], [], None), es[i], rw, log);
             && |q.rows| == 1
             && after == before[i := q.rows[0]] && next == q.counter && kept == q.out && failure == q.failure
    ensures failure.None? ==> Scan(es[..i + 1], rw, log) == Pass(next, after[..i + 1], updated + kept, None)
    ensures failure.None? ==> after[i + 1..] == es[i + 1..]
    ensures failure.Some? ==> after == Scan(es, rw, log).rows && Outcome(Scan(es, rw, log)) == Err(failure.value)
  {
    ScanNext(es, i, rw, log);
    StepAppends(Pass(counter, before[..i], updated, None), es[i], rw, log);
    var q := Step(Pass(counter, [], [], None), es[i], rw, log);
    Splice(before, i, q.rows[0]);
    assert before[..i] + q.rows == after[..i + 1];
    if failure.Some? {
      ScanStops(es, i + 1, rw, log);
      assert after == after[..i + 1] + es[i + 1..];
    }
  }

  /** One iteration of lines 62-106 on row `i`: move the cursor on a prime, read the
      log row under it, rewrite the row in place, and hand back the row to keep. */
  method Visit(events: array<Event>, i: int, counter: int, eventId: Dict, logfile: seq<Trial>)
    returns (next: int, kept: seq<Event>, failure: Option<Error>)
    requires 0 <= i < events.Length
    modifies events
    ensures var q := Step(Pass(counter, [], [], None), old(events[i]), Rewriter(eventId), logfile);
            && |q.rows| == 1
            && events[..] == old(events[..])[i := q.rows[0]]
            && next == q.counter && kept == q.out && failure == q.failure
  {
    StepAlone(counter, events[i], Rewriter(eventId), logfile);
    next, kept, failure := counter, [], None;
    var event := events[i];
    if event.code in [10, 20, 30] {
      if event.code == 10 {
        next := counter + 1;
      }
      var row := ILoc(logfile, next);
      if row.Err? {
        return next, [], Some(row.error);
      }
      failure := RewriteInPlace(events, i, eventId, row.value);
      if failure.None? {
        kept := [events[i]];
      }
    }
  }

  /** One iteration of the loop from an empty state, case by case. */
  lemma StepAlone(counter: int, e: Event, rw: RowRewrite, log: seq<Trial>)
    ensures var q := Step(Pass(counter, [], [], None), e, rw, log);
            var next := if e.code == 10 then counter + 1 else counter;
            if e.code !in RawCodes then q == Pass(counter, [e], [], None)
            else if ILoc(log, next).Err? then q == Pass(next, [e], [], Some(ILoc(log, next).error))
            else
              var r := rw(e.code, ILoc(log, next).value);
              var e' := e.(code := r.code);
              q == Pass(next, [e'], if r.failure.Some? then [] else [e'], r.failure)
  {
    Single(e);
    if e.code in RawCodes && ILoc(log, if e.code == 10 then counter + 1 else counter).Ok? {
      var t := ILoc(log, if e.code == 10 then counter + 1 else counter).value;
      Single(e.(code := rw(e.code, t).code));
    }
  }

  /** Lines 79-104 on row `i`: three ifs in sequence, each testing the code that the
      one before left in the row, and each writing the row in place. */
  method RewriteInPlace(events: array<Event>, i: int, eventId: Dict, t: Trial)
    returns (failure: Option<Error>)
    requires 0 <= i < events.Length
    modifies events
    ensures var r := RewriteRow(old(events[i]).code, t, eventId);
            && events[..] == old(events[..])[i := old(events[i]).(code := r.code)]
            && failure == r.failure
  {
    ghost var es := events[..];
    ghost var e := events[i];
    failure := AssignInPlace(events, i, 10, eventId, PrimeLabel(t));
    ghost var prime := AssignIf(Rewrite(e.code, None), 10, eventId, PrimeLabel(t));
    assert events[..] == es[i := e.(code := prime.code)];
    if failure.Some? {
      return;
    }
    failure := AssignInPlace(events, i, 20, eventId, TargetLabel(t));
    ghost var target := AssignIf(prime, 20, eventId, TargetLabel(t));
    assert events[..] == es[i := e.(code := target.code)];
    if failure.Some? {
      return;
    }
    failure := AssignInPlace(events, i, 30, eventId, ResponseLabel(t));
  }

  /** `if tmp_event[-1] == trigger: tmp_event[-1] = event_id[key]` on row `i`. */
  method AssignInPlace(events: array<Event>, i: int, trigger: int, eventId: Dict, key: string)
    returns (failure: Option<Error>)
    requires 0 <= i < events.Length
    modifies events
    ensures var r := AssignIf(Rewrite(old(events[i]).code, None), trigger, eventId, key);
            && events[..] == old(events[..])[i := old(events[i]).(code := r.code)]
            && failure == r.failure
  {
    failure := None;
    if events[i].code == trigger {
      var found := Get(eventId, key);
      if found.None? {
        return Some(KeyError(key));
      }
      events[i] := events[i].(code := found.value);
    }
  }

  /** `Scan` on one more row is one more `Step`. */
  lemma ScanNext(es: seq<Event>, i: int, rw: RowRewrite, log: seq<Trial>)
    requires 0 <= i < |es|
    ensures Scan(es[..i + 1], rw, log) == Step(Scan(es[..i], rw, log), es[i], rw, log)
  {
    assert es[..i + 1][..i] == es[..i];
  }

  /** A step of the loop only appends to the rows and to `updated_events`. */
  lemma StepAppends(p: Pass, e: Event, rw: RowRewrite, log: seq<Trial>)
    requires p.failure == None
    ensures var q := Step(Pass(p.counter, [], [], None), e, rw, log);
            && Step(p, e, rw, log) == Pass(q.counter, p.rows + q.rows, p.out + q.out, q.failure)
            && |q.rows| == 1 && q.rows[0].sample == e.sample && q.rows[0].previous == e.previous
  {
    if e.code in RawCodes {
      var counter := if e.code == 10 then p.counter + 1 else p.counter;
      match ILoc(log, counter)
      case Err(_) =>
        Single(e);
      case Ok(t) =>
        Single(e.(code := rw(e.code, t).code));
    } else {
      Single(e);
    }
  }

  /** A sequence identity, kept in a lemma of its own so that the larger proofs that use
      it do not have to rediscover it among their other facts. */
  lemma Single(e: Event)
    ensures [] + [e] == [e]
  {
  }

  /** A step adds exactly one row. */
  lemma StepLength(p: Pass, e: Event, rw: RowRewrite, log: seq<Trial>)
    ensures |Step(p, e, rw, log).rows| == |p.rows| + 1
  {
  }

  /** The pass keeps one row per input row. */
  lemma {:induction false} ScanLength(es: seq<Event>, rw: RowRewrite, log: seq<Trial>)
    ensures |Scan(es, rw, log).rows| == |es|
    decreases |es|
  {
    if es != [] {
      ScanLength(es[..|es| - 1], rw, log);
      StepLength(Scan(es[..|es| - 1], rw, log), es[|es| - 1], rw, log);
    }
  }

  /** Updating row `i` replaces it between the rows before and after it (a sequence
      identity in a lemma of its own, for the same reason as `Single`). */
  lemma Splice(s: seq<Event>, i: int, x: Event)
    requires 0 <= i < |s|
    ensures s[i := x][..i + 1] == s[..i] + [x]
    ensures s[i := x][i + 1..] == s[i + 1..]
    ensures s[i := x] == s[..i] + [x] + s[i + 1..]
  {
  }

  /** Once an exception is in flight, the rest of the rows pass through untouched and
      the exception is the outcome. */
  lemma {:induction false} ScanStops(es: seq<Event>, k: int, rw: RowRewrite, log: seq<Trial>)
    requires 0 <= k <= |es|
    requires Scan(es[..k], rw, log).failure.Some?
    ensures Scan(es, rw, log).failure == Scan(es[..k], rw, log).failure
    ensures Scan(es, rw, log).out == Scan(es[..k], rw, log).out
    ensures Scan(es, rw, log).rows == Scan(es[..k], rw, log).rows + es[k..]
    decreases |es| - k
  {
    if k == |es| {
      assert es[..k] == es;
    } else {
      assert es[..|es| - 1][..k] == es[..k];
      ScanStops(es[..|es| - 1], k, rw, log);
      assert es[k..] == es[k..|es| - 1] + [es[|es| - 1]];
      assert es[..|es| - 1][k..] == es[k..|es| - 1];
    }
  }

  /** The number of prime triggers (code 10) among the rows. */
  function Count10(es: seq<Event>): nat
    decreases |es|
  {
    if es == [] then 0
    else Count10(es[..|es| - 1]) + if es[|es| - 1].code == 10 then 1 else 0
  }

  /** The number of prime, target and response triggers among the rows. */
  function RawCount(es: seq<Event>): nat
    decreases |es|
  {
    if es == [] then 0
    else RawCount(es[..|es| - 1]) + if es[|es| - 1].code in RawCodes then 1 else 0
  }

  /** The rows of `rows` at the positions where `es` holds a raw trigger, in order. */
  function Kept(es: seq<Event>, rows: seq<Event>): seq<Event>
    requires |es| == |rows|
    decreases |es|
  {
    if es == [] then []
    else
      var front := Kept(es[..|es| - 1], rows[..|rows| - 1]);
      if es[|es| - 1].code in RawCodes then front + [rows[|rows| - 1]] else front
  }

  /** An exception, once raised, is never undone by a later row. */
  lemma {:induction false} ScanFailureSticks(es: seq<Event>, k: int, rw: RowRewrite, log: seq<Trial>)
    requires 0 <= k <= |es|
    requires Scan(es, rw, log).failure == None
    ensures Scan(es[..k], rw, log).failure == None
  {
    if Scan(es[..k], rw, log).failure.Some? {
      ScanStops(es, k, rw, log);
    }
  }

  /** The rows only grow: the first `k` rows after the whole pass are the rows after
      the first `k` steps. */
  lemma {:induction false} ScanPrefixRows(es: seq<Event>, k: int, rw: RowRewrite, log: seq<Trial>)
    requires 0 <= k <= |es|
    ensures |Scan(es, rw, log).rows| == |es|
    ensures Scan(es, rw, log).rows[..k] == Scan(es[..k], rw, log).rows
    decreases |es|
  {
    if es != [] {
      var front := es[..|es| - 1];
      if k == |es| {
        assert es[..k] == es;
        ScanPrefixRows(front, |front|, rw, log);
      } else {
        ScanPrefixRows(front, k, rw, log);
        assert front[..k] == es[..k];
      }
      var p := Scan(front, rw, log);
      if p.failure == None {
        StepAppends(p, es[|es| - 1], rw, log);
      }
    }
  }

  /** The pass keeps every row in place: the same number of rows, with the same onset
      and previous value, and every row whose code is not a raw trigger left as is. */
  lemma {:induction false} ScanShape(es: seq<Event>, rw: RowRewrite, log: seq<Trial>)
    ensures |Scan(es, rw, log).rows| == |es|
    ensures forall i :: 0 <= i < |es| ==>
              && Scan(es, rw, log).rows[i].sample == es[i].sample
              && Scan(es, rw, log).rows[i].previous == es[i].previous
              && (es[i].code !in RawCodes ==> Scan(es, rw, log).rows[i] == es[i])
    decreases |es|
  {
    if es != [] {
      var front := es[..|es| - 1];
      ScanShape(front, rw, log);
      var p := Scan(front, rw, log);
      if p.failure == None {
        StepAppends(p, es[|es| - 1], rw, log);
      }
      forall i | 0 <= i < |es|
        ensures Scan(es, rw, log).rows[i].sample == es[i].sample
        ensures Scan(es, rw, log).rows[i].previous == es[i].previous
        ensures es[i].code !in RawCodes ==> Scan(es, rw, log).rows[i] == es[i]
      {
        if i < |front| {
          assert es[i] == front[i];
        }
      }
    }
  }

  /** Without an exception, `counter` ends one below the number of primes, there are
      no more primes than log rows, and a session with any raw trigger has a log row. */
  lemma {:induction false} ScanCounter(es: seq<Event>, rw: RowRewrite, log: seq<Trial>)
    requires Scan(es, rw, log).failure == None
    ensures Scan(es, rw, log).counter == Count10(es) - 1
    ensures Count10(es) <= |log|
    ensures RawCount(es) > 0 ==> |log| > 0
    decreases |es|
  {
    if es != [] {
      var front := es[..|es| - 1];
      ScanFailureSticks(es, |front|, rw, log);
      assert es[..|front|] == front;
      ScanCounter(front, rw, log);
      StepAppends(Scan(front, rw, log), es[|es| - 1], rw, log);
    }
  }

  /** Without an exception, the result is exactly the raw trigger rows of the input, in
      order, as the loop left them in the events array. */
  lemma {:induction false} ScanOutput(es: seq<Event>, rw: RowRewrite, log: seq<Trial>)
    requires Scan(es, rw, log).failure == None
    ensures |Scan(es, rw, log).rows| == |es|
    ensures Scan(es, rw, log).out == Kept(es, Scan(es, rw, log).rows)
    ensures |Scan(es, rw, log).out| == RawCount(es)
    decreases |es|
  {
    ScanLength(es, rw, log);
    if es != [] {
      var front := es[..|es| - 1];
      ScanFailureSticks(es, |front|, rw, log);
      assert es[..|front|] == front;
      ScanOutput(front, rw, log);
      var p := Scan(front, rw, log);
      StepAppends(p, es[|es| - 1], rw, log);
      assert Scan(es, rw, log).rows[..|front|] == p.rows;
    }
  }

  /** The cursor: a raw trigger row is rewritten from the log row `iloc[k - 1]`, where
      `k` is the number of primes up to and including it. So the k-th prime and the
      targets and responses after it read row k - 1, and the rows before the first
      prime read `iloc[-1]`. The rewrite is the one of lines 79-104. */
  lemma ScanReads(es: seq<Event>, rw: RowRewrite, log: seq<Trial>, i: int)
    requires Scan(es, rw, log).failure == None
    requires 0 <= i < |es| && es[i].code in RawCodes
    ensures |Scan(es, rw, log).rows| == |es|
    ensures ILoc(log, Count10(es[..i + 1]) - 1).Ok?
    ensures rw(es[i].code, ILoc(log, Count10(es[..i + 1]) - 1).value).failure == None
    ensures Scan(es, rw, log).rows[i]
            == es[i].(code := rw(es[i].code, ILoc(log, Count10(es[..i + 1]) - 1).value).code)
  {
    var pre := es[..i + 1];
    assert |pre| == i + 1 && pre[i] == es[i];
    assert Scan(pre, rw, log).failure == None by {
      ScanFailureSticks(es, i + 1, rw, log);
    }
    assert |Scan(es, rw, log).rows| == |es| && Scan(es, rw, log).rows[i] == Scan(pre, rw, log).rows[i] by {
      ScanPrefixRows(es, i + 1, rw, log);
      assert Scan(es, rw, log).rows[..i + 1][i] == Scan(es, rw, log).rows[i];
    }
    LastRowReads(pre, rw, log);
  }

  /** The cursor for the last row of a pass that raises nothing. */
  lemma LastRowReads(es: seq<Event>, rw: RowRewrite, log: seq<Trial>)
    requires es != [] && es[|es| - 1].code in RawCodes
    requires Scan(es, rw, log).failure == None
    ensures |Scan(es, rw, log).rows| == |es|
    ensures ILoc(log, Count10(es) - 1).Ok?
    ensures rw(es[|es| - 1].code, ILoc(log, Count10(es) - 1).value).failure == None
    ensures Scan(es, rw, log).rows[|es| - 1]
            == es[|es| - 1].(code := rw(es[|es| - 1].code, ILoc(log, Count10(es) - 1).value).code)
  {
    var front := es[..|es| - 1];
    ScanFailureSticks(es, |es| - 1, rw, log);
    ScanCounter(front, rw, log);
    ScanLength(front, rw, log);
    ScanLength(es, rw, log);
    StepReads(Scan(front, rw, log), es[|es| - 1], rw, log);
  }

  /** One raw trigger row that raises nothing, on its own. */
  lemma StepReads(p: Pass, e: Event, rw: RowRewrite, log: seq<Trial>)
    requires p.failure == None && e.code in RawCodes
    requires Step(p, e, rw, log).failure == None
    ensures var counter := if e.code == 10 then p.counter + 1 else p.counter;
            && ILoc(log, counter).Ok?
            && rw(e.code, ILoc(log, counter).value).failure == None
            && Step(p, e, rw, log).rows
               == p.rows + [e.(code := rw(e.code, ILoc(log, counter).value).code)]
  {
  }

  /** Targets and responses before the first prime read the last row of the log. The
      rewrite is made in place, so it stands even when a later row raises: only the
      rows up to and including row `i` must raise nothing. */
  lemma BeforeFirstPrime(es: seq<Event>, rw: RowRewrite, log: seq<Trial>, i: int)
    requires 0 <= i < |es| && es[i].code in RawCodes && Count10(es[..i + 1]) == 0
    requires Scan(es[..i + 1], rw, log).failure == None
    ensures |log| > 0 && |Scan(es, rw, log).rows| == |es|
    ensures Scan(es, rw, log).rows[i] == es[i].(code := rw(es[i].code, log[|log| - 1]).code)
  {
    var pre := es[..i + 1];
    assert |pre| == i + 1 && pre[i] == es[i] && pre[..i + 1] == pre;
    ScanReads(pre, rw, log, i);
    ScanPrefixRows(es, i + 1, rw, log);
    assert Scan(es, rw, log).rows[..i + 1][i] == Scan(es, rw, log).rows[i];
  }

  /** A session with more primes than log rows raises an IndexError. */
  lemma TooManyPrimes(es: seq<Event>, rw: RowRewrite, log: seq<Trial>)
    requires Count10(es) > |log|
    ensures Scan(es, rw, log).failure.Some?
  {
    if Scan(es, rw, log).failure == None {
      ScanCounter(es, rw, log);
    }
  }

  /** When no code of the dict is 20 or 30, a row is rewritten at most once: the later
      ifs of lines 85 and 94 never see a code written by an earlier one. */
  lemma RewriteOnce(code: int, t: Trial, d: Dict)
    requires CodesAvoid(d, {20, 30})
    ensures RewriteRow(code, t, d)
            == if code == 10 then Assign(code, d, PrimeLabel(t))
               else if code == 20 then Assign(code, d, TargetLabel(t))
               else if code == 30 then Assign(code, d, ResponseLabel(t))
               else Rewrite(code, None)
  {
    if code == 10 && Get(d, PrimeLabel(t)).Some? {
      GetCode(d, PrimeLabel(t));
    }
    if code == 20 && Get(d, TargetLabel(t)).Some? {
      GetCode(d, TargetLabel(t));
    }
  }

  /** An if that raised nothing either left the code as it was or wrote a code of the
      dict; one whose trigger matched wrote a code of the dict. */
  lemma AssignIfCode(r: Rewrite, trigger: int, d: Dict, key: string)
    ensures AssignIf(r, trigger, d, key).failure == None ==>
              && r.failure == None
              && (AssignIf(r, trigger, d, key).code == r.code || HasCode(d, AssignIf(r, trigger, d, key).code))
    ensures r.failure == None && r.code == trigger && AssignIf(r, trigger, d, key).failure == None ==>
              HasCode(d, AssignIf(r, trigger, d, key).code)
  {
    if r.failure == None && r.code == trigger && Get(d, key).Some? {
      GetCode(d, key);
    }
  }

  /** A raw trigger row that lines 79-104 rewrite without an exception ends with a code
      of the dict, whatever codes the dict holds: the if matching the raw code fires, and
      every later if that fires writes a code of the dict again. */
  lemma RewriteRowCode(code: int, t: Trial, d: Dict)
    requires code in RawCodes && RewriteRow(code, t, d).failure == None
    ensures HasCode(d, RewriteRow(code, t, d).code)
  {
    var prime := AssignIf(Rewrite(code, None), 10, d, PrimeLabel(t));
    var target := AssignIf(prime, 20, d, TargetLabel(t));
    AssignIfCode(Rewrite(code, None), 10, d, PrimeLabel(t));
    AssignIfCode(prime, 20, d, TargetLabel(t));
    AssignIfCode(target, 30, d, ResponseLabel(t));
  }

  /** After a pass that raises nothing, every raw trigger row carries a code of the
      dict. */
  lemma RewrittenCodesKnown(es: seq<Event>, d: Dict, log: seq<Trial>, i: int)
    requires Scan(es, Rewriter(d), log).failure == None
    requires 0 <= i < |es| && es[i].code in RawCodes
    ensures |Scan(es, Rewriter(d), log).rows| == |es|
    ensures HasCode(d, Scan(es, Rewriter(d), log).rows[i].code)
  {
    ScanReads(es, Rewriter(d), log, i);
    RewriteRowCode(es[i].code, ILoc(log, Count10(es[..i + 1]) - 1).value, d);
  }

  /** With `event_id`, a raw trigger row whose log row holds the experiment's values is
      rewritten without an exception. */
  lemma RewriteSucceeds(code: int, t: Trial)
    requires code in RawCodes && Enumerated(t)
    ensures RewriteRow(code, t, EventId).failure == None
  {
    EventIdAvoidsRawCodes();
    RewriteOnce(code, t, EventId);
    LabelsFound(t);
  }

  /** A target trigger whose log row has the target gender "filler" raises KeyError on
      the label of line 92, and keeps its raw code. */
  lemma FillerTargetRaises(t: Trial)
    requires t.targetGender == "filler"
    ensures RewriteRow(20, t, EventId) == Rewrite(20, Some(KeyError(TargetLabel(t))))
  {
    FillerTargetMissing(t);
  }

  /** With `event_id` and a log of the experiment's values, the function raises nothing
      exactly when the log has a row for every prime and, if the session has any raw
      trigger at all, at least one row. */
  lemma {:induction false} ScanSucceeds(es: seq<Event>, log: seq<Trial>)
    requires forall k :: 0 <= k < |log| ==> Enumerated(log[k])
    ensures Scan(es, Rewriter(EventId), log).failure == None
            <==> Count10(es) <= |log| && (RawCount(es) > 0 ==> |log| > 0)
    decreases |es|
  {
    if Scan(es, Rewriter(EventId), log).failure == None {
      ScanCounter(es, Rewriter(EventId), log);
    } else if es != [] && Count10(es) <= |log| && (RawCount(es) > 0 ==> |log| > 0) {
      var front := es[..|es| - 1];
      var e := es[|es| - 1];
      ScanSucceeds(front, log);
      ScanCounter(front, Rewriter(EventId), log);
      var p := Scan(front, Rewriter(EventId), log);
      StepAppends(p, e, Rewriter(EventId), log);
      if e.code in RawCodes {
        var counter := if e.code == 10 then p.counter + 1 else p.counter;
        var k := if counter < 0 then |log| + counter else counter;
        assert 0 <= k < |log|;
        RewriteSucceeds(e.code, log[k]);
      }
      assert false;
    }
  }

  /** The log row of the example session: a female adult prime, a male target, a
      correct "m" response. */
  const ExampleTrial: Trial := Trial("female", "adult", "male", 1, "m")

  /** The three labels of the example row and their codes in `event_id`. */
  lemma ExamplePrime()
    ensures RewriteRow(10, ExampleTrial, EventId) == Rewrite(11, None)
  {
    var t := ExampleTrial;
    EventIdKeysDistinct();
    EventIdAvoidsRawCodes();
    PrimeLabelPath(t);
    assert PrimeEntries[0] == Entry(Path(PrimeSegments(t)), 11);
    GetIff(EventId, PrimeLabel(t), 11);
    RewriteOnce(10, t, EventId);
  }

  lemma ExampleTarget()
    ensures RewriteRow(20, ExampleTrial, EventId) == Rewrite(112, None)
  {
    var t := ExampleTrial;
    EventIdKeysDistinct();
    EventIdAvoidsRawCodes();
    TargetLabelPath(t);
    assert TargetEntries[4] == Entry(Path(TargetSegments(t)), 112);
    GetIff(EventId, TargetLabel(t), 112);
    RewriteOnce(20, t, EventId);
  }

  lemma ExampleResponse()
    ensures RewriteRow(30, ExampleTrial, EventId) == Rewrite(212, None)
  {
    var t := ExampleTrial;
    EventIdKeysDistinct();
    EventIdAvoidsRawCodes();
    ResponseLabelPath(t);
    assert CorrectBinaryEntries[8] == Entry(Path(ResponseSegments(t)), 212);
    GetIff(EventId, ResponseLabel(t), 212);
    RewriteOnce(30, t, EventId);
  }

  /** A session of one prime, one target and one response, with a one-row log, comes
      out as the codes 11, 112 and 212, onsets unchanged. */
  lemma ExampleSession()
    ensures var es := [Event(0, 0, 10), Event(350, 0, 20), Event(1900, 0, 30)];
            Outcome(Scan(es, Rewriter(EventId), [ExampleTrial]))
            == Ok([Event(0, 0, 11), Event(350, 0, 112), Event(1900, 0, 212)])
  {
    ExamplePrime();
    ExampleTarget();
    ExampleResponse();
    ThreeRows(Event(0, 0, 10), Event(350, 0, 20), Event(1900, 0, 30), Rewriter(EventId), ExampleTrial, 11, 112, 212);
  }

  /** One prime, one target and one response over a one-row log, each rewritten once. */
  lemma ThreeRows(a: Event, b: Event, c: Event, rw: RowRewrite, t: Trial, x: int, y: int, z: int)
    requires a.code == 10 && b.code == 20 && c.code == 30
    requires rw(10, t) == Rewrite(x, None)
    requires rw(20, t) == Rewrite(y, None)
    requires rw(30, t) == Rewrite(z, None)
    ensures Outcome(Scan([a, b, c], rw, [t])) == Ok([a.(code := x), b.(code := y), c.(code := z)])
  {
    var log := [t];
    var a', b', c' := a.(code := x), b.(code := y), c.(code := z);
    assert ILoc(log, 0) == Ok(t);
    Snoc(a, b, c);
    Snoc(a', b', c');
    ScanRewrites([], a, rw, log, t, x);
    ScanRewrites([a], b, rw, log, t, y);
    ScanRewrites([a, b], c, rw, log, t, z);
  }

  /** Appending the three rows of the example one at a time (sequence identities, as in
      `Single`). */
  lemma Snoc(a: Event, b: Event, c: Event)
    ensures [] + [a] == [a] && [a] + [b] == [a, b] && [a, b] + [c] == [a, b, c]
  {
  }

  /** One more raw trigger row, read from log row `t` and rewritten to code `x`. */
  lemma ScanRewrites(es: seq<Event>, e: Event, rw: RowRewrite, log: seq<Trial>, t: Trial, x: int)
    requires Scan(es, rw, log).failure == None && e.code in RawCodes
    requires ILoc(log, if e.code == 10 then Scan(es, rw, log).counter + 1 else Scan(es, rw, log).counter) == Ok(t)
    requires rw(e.code, t) == Rewrite(x, None)
    ensures Scan(es + [e], rw, log)
            == Pass(if e.code == 10 then Scan(es, rw, log).counter + 1 else Scan(es, rw, log).counter,
                    Scan(es, rw, log).rows + [e.(code := x)], Scan(es, rw, log).out + [e.(code := x)], None)
  {
    assert (es + [e])[..|es|] == es;
  }
}
