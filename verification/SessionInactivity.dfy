/**
 * The inactivity timeout of a session: it is extended on activity, but written back only when that
 * moves the expiry by more than a slack, and it is stored in whole seconds. Times are microseconds.
 */
module SessionInactivity {
  import opened Options

  const SEC := 1_000_000
  const INT64_MAX := 0x7FFF_FFFF_FFFF_FFFF
  const TIMEOUT_MIN := 10
  const TIMEOUT_MAX := 3600 * 24 * 365

  /** Seconds to a time, saturating; negative values become 0. */
  function TimeFromSec(seconds: int): (time: int)
    ensures 0 <= seconds < 9_223_372_036_854 ==> time == 1_000_000 * seconds
    ensures seconds < 0 ==> time == 0
    ensures seconds >= 9_223_372_036_854 ==> time == INT64_MAX
  {
    if seconds <= 0 then 0
    else if seconds >= INT64_MAX / SEC then INT64_MAX
    else seconds * SEC
  }

  /** How much of an extension may go unwritten: a tenth of the timeout, at most a minute. */
  function Slack(interval: nat): (slack: nat)
    ensures 10 * slack <= interval && slack <= 60_000_000
    ensures slack == 60_000_000 || 10 * (slack + 1) > interval
  {
    if interval / 10 > 60 * SEC then 60 * SEC else interval / 10
  }

  /** A configured timeout, in microseconds. */
  ghost predicate IntervalOk(interval: nat) {
    TIMEOUT_MIN * SEC <= interval <= TIMEOUT_MAX * SEC
  }

  /** A moment whose extension is well inside the representable range. */
  ghost predicate NowOk(now: int, interval: nat) {
    0 <= now && now + interval < (INT64_MAX / SEC) * SEC
  }

  /**
   * A request on an existing session: the clock when the session is loaded and, after whatever else the
   * request does, when its extension is considered; whether it is to extend the session, needs saving for
   * another reason, and whether a save succeeds.
   */
  datatype Req = Req(now: int, later: int, extend: bool, otherSave: bool, saveOk: bool)

  /** What it comes to: the session was expired, or it lives on with this stored expiry (in seconds). */
  datatype Outcome = Expired | Alive(stored: int, extended: bool)

  function Handle(stored: int, interval: nat, q: Req): Outcome {
    var expiry := TimeFromSec(stored);
    if q.now > expiry then Expired
    else if q.extend && expiry - q.later < interval - Slack(interval) then
      if q.saveOk then Alive((q.later + interval) / SEC, true) else Alive(stored, false)
    else if q.otherSave && q.saveOk then Alive(expiry / SEC, false)
    else Alive(stored, false)
  }

  /** The session as one request works on it: the struct's expiry and the expiry member of its JSON state. */
  class Session {
    var expiry: int
    var state: Option<int>

    /** A freshly loaded session. */
    constructor (stored: Option<int>)
      ensures state == stored && expiry == 0
    {
      state, expiry := stored, 0;
    }

    method SetTimestamp(timestamp: int)
      modifies this`state
      ensures state == if timestamp <= -1 then old(state) else Some(timestamp / SEC)
    {
      if timestamp <= -1 {
        return;
      }
      state := Some(timestamp / SEC);
    }

    function GetTimestamp(): (time: int)
      reads this
      ensures state == None || state.value < 0 ==> time == -1
      ensures state.Some? && 0 <= state.value < 9_223_372_036_854 ==> time == 1_000_000 * state.value
    {
      var value := if state.Some? then state.value else -1;
      if value > -1 then TimeFromSec(value) else -1
    }

    method Kill()
      modifies this
      ensures state == None && expiry == 0
    {
      state, expiry := None, 0;
    }

    /** Take over the stored expiry; one that is corrupted (claims not a JSON object) or expired is killed. */
    method Extract(now: int, claimsOk: bool) returns (ok: bool)
      modifies this
      ensures ok <==> old(state).Some? && claimsOk && now <= old(GetTimestamp())
      ensures ok ==> state == old(state) && expiry == old(GetTimestamp())
      ensures !ok ==> state == None
    {
      if state == None {
        return false;
      }
      if !claimsOk {
        Kill();
        return false;
      }
      expiry := GetTimestamp();
      if now > expiry {
        Kill();
        return false;
      }
      ok := true;
    }

    /** Extend the session on activity, unless that would gain no more than the slack. */
    method PassTokens(extend: bool, timeout: nat, now: int) returns (needsSave: bool)
      modifies this`expiry
      ensures needsSave <==> extend && old(expiry) - now < timeout * SEC - Slack(timeout * SEC)
      ensures expiry == if needsSave then now + timeout * SEC else old(expiry)
    {
      needsSave := false;
      if extend {
        var interval := timeout * SEC;
        var slack := interval / 10;
        if slack > 60 * SEC {
          slack := 60 * SEC;
        }
        if expiry - now < interval - slack {
          expiry := now + interval;
          needsSave := true;
        }
      }
    }

    /**
     * One request: load, check, extend, and save when needed. kept is what the session store holds
     * afterwards, ok whether the request went through.
     */
    method Request(q: Req, timeout: nat) returns (ok: bool, kept: Option<int>)
      requires state.Some? && state.value >= 0 && q.now >= 0 && q.later >= 0
      modifies this
      ensures match Handle(old(state.value), timeout * SEC, q)
              case Expired => !ok && kept == None
              case Alive(stored, extended) => kept == Some(stored) && (q.saveOk ==> ok) && (extended ==> ok)
    {
      ok := Extract(q.now, true);
      kept := state;
      if ok {
        var needsSave := PassTokens(q.extend, timeout, q.later);
        if needsSave || q.otherSave {
          SetTimestamp(expiry);
          ok := q.saveOk;
          if ok {
            kept := state;
          }
        }
      }
    }
  }

  /** Exactly when a request finds the session expired, and when it writes an extension; it stores nothing else. */
  lemma WritesIff(stored: int, interval: nat, q: Req)
    requires 0 <= stored < 9_223_372_036_854
    ensures Handle(stored, interval, q) == Expired <==> q.now > 1_000_000 * stored
    ensures q.now <= 1_000_000 * stored ==>
              var gains := q.extend && q.saveOk && 1_000_000 * stored - q.later < interval - Slack(interval);
              Handle(stored, interval, q) == Alive(if gains then (q.later + interval) / 1_000_000 else stored, gains)
  {
  }

  // ---- over whole runs ----

  /** Seen from the last extending request, the stored expiry is at most the slack too early, and never late. */
  ghost predicate Tracks(stored: int, interval: nat, last: int) {
    && 0 <= stored < INT64_MAX / SEC
    && last + interval - Slack(interval) <= stored * SEC <= last + interval
  }

  /** A session created at `now` is stored with a full interval ahead of it. */
  lemma CreationTracks(now: int, interval: nat)
    requires IntervalOk(interval) && NowOk(now, interval)
    ensures Tracks((now + interval) / SEC, interval, now)
  {
  }

  /** The last activity before request i of the run: a request that is to extend the session and can. */
  function LastActive(last: int, reqs: seq<Req>, i: nat): int
    requires i <= |reqs|
  {
    if i == 0 then last
    else if reqs[i - 1].extend && reqs[i - 1].saveOk then reqs[i - 1].later else LastActive(last, reqs, i - 1)
  }

  /** The stored expiry before request i, Expired once a request found it so. */
  function StoredAt(stored: int, interval: nat, reqs: seq<Req>, i: nat): Outcome
    requires i <= |reqs|
  {
    if i == 0 then Alive(stored, false)
    else match StoredAt(stored, interval, reqs, i - 1)
      case Expired => Expired
      case Alive(s, _) => Handle(s, interval, reqs[i - 1])
  }

  ghost predicate Chronological(last: int, interval: nat, reqs: seq<Req>) {
    && (forall i :: 0 <= i < |reqs| ==> NowOk(reqs[i].later, interval) && 0 <= reqs[i].now)
    && (forall i :: 0 <= i < |reqs| ==> last <= reqs[i].now <= reqs[i].later)
    && (forall i, j :: 0 <= i < j < |reqs| ==> reqs[i].later <= reqs[j].now)
  }

  lemma HandleTracks(stored: int, interval: nat, last: int, q: Req)
    requires IntervalOk(interval) && NowOk(q.later, interval) && last <= q.now <= q.later
    requires Tracks(stored, interval, last)
    ensures q.now <= last + interval - Slack(interval) ==> Handle(stored, interval, q).Alive?
    ensures q.now > last + interval ==> Handle(stored, interval, q).Expired?
    ensures Handle(stored, interval, q).Alive? ==>
              Tracks(Handle(stored, interval, q).stored, interval, if q.extend && q.saveOk then q.later else last)
  {
  }

  lemma {:induction false} RunTracks(stored: int, interval: nat, last: int, reqs: seq<Req>, i: nat)
    requires IntervalOk(interval) && Chronological(last, interval, reqs) && Tracks(stored, interval, last)
    requires i <= |reqs|
    ensures last <= LastActive(last, reqs, i) && (i < |reqs| ==> LastActive(last, reqs, i) <= reqs[i].now)
    ensures StoredAt(stored, interval, reqs, i).Alive? ==>
              Tracks(StoredAt(stored, interval, reqs, i).stored, interval, LastActive(last, reqs, i))
    decreases i
  {
    if i > 0 {
      RunTracks(stored, interval, last, reqs, i - 1);
      var before := StoredAt(stored, interval, reqs, i - 1);
      if before.Alive? {
        HandleTracks(before.stored, interval, LastActive(last, reqs, i - 1), reqs[i - 1]);
      }
    }
  }

  /**
   * No early expiry: when every request comes at most interval - slack after the last activity, none
   * of them finds the session expired, whatever is truncated and not written on the way.
   */
  lemma {:induction false} ActiveSessionLives(stored: int, interval: nat, last: int, reqs: seq<Req>, i: nat)
    requires IntervalOk(interval) && Chronological(last, interval, reqs) && Tracks(stored, interval, last)
    requires i <= |reqs|
    requires forall j :: 0 <= j < i ==> reqs[j].now - LastActive(last, reqs, j) <= interval - Slack(interval)
    ensures StoredAt(stored, interval, reqs, i).Alive?
    decreases i
  {
    hide Handle, Tracks, Slack, LastActive, IntervalOk, NowOk;
    if i > 0 {
      ActiveSessionLives(stored, interval, last, reqs, i - 1);
      RunTracks(stored, interval, last, reqs, i - 1);
      var before := StoredAt(stored, interval, reqs, i - 1);
      HandleTracks(before.stored, interval, LastActive(last, reqs, i - 1), reqs[i - 1]);
    }
  }

  /** No late expiry: a request more than the full interval after the last activity finds the session expired. */
  lemma IdleSessionExpires(stored: int, interval: nat, last: int, reqs: seq<Req>, i: nat)
    requires IntervalOk(interval) && Chronological(last, interval, reqs) && Tracks(stored, interval, last) && i < |reqs|
    requires reqs[i].now - LastActive(last, reqs, i) > interval
    ensures StoredAt(stored, interval, reqs, i + 1).Expired?
  {
    RunTracks(stored, interval, last, reqs, i);
    var before := StoredAt(stored, interval, reqs, i);
    if before.Alive? {
      HandleTracks(before.stored, interval, LastActive(last, reqs, i), reqs[i]);
    }
  }

  /** Request k writes an extension. */
  predicate Extends(stored: int, interval: nat, reqs: seq<Req>, k: nat)
    requires k < |reqs|
  {
    StoredAt(stored, interval, reqs, k + 1).Alive? && StoredAt(stored, interval, reqs, k + 1).extended
  }

  /** As long as no extension is written, the stored expiry stays what the extension at request j made it. */
  lemma {:induction false} StoredSince(stored: int, interval: nat, last: int, reqs: seq<Req>, j: nat, k: nat)
    requires IntervalOk(interval) && Chronological(last, interval, reqs) && Tracks(stored, interval, last)
    requires j < k < |reqs| && Extends(stored, interval, reqs, j)
    requires forall m :: j < m < k ==> !Extends(stored, interval, reqs, m)
    requires StoredAt(stored, interval, reqs, k).Alive?
    ensures StoredAt(stored, interval, reqs, k).stored == (reqs[j].later + interval) / SEC
    decreases k
  {
    if j + 1 < k {
      assert !Extends(stored, interval, reqs, k - 1);
      StoredSince(stored, interval, last, reqs, j, k - 1);
      RunTracks(stored, interval, last, reqs, k - 1);
      var s := StoredAt(stored, interval, reqs, k - 1).stored;
      assert TimeFromSec(s) == s * SEC && s * SEC / SEC == s;
    }
  }

  /** Few writes: two consecutive extensions that are written are more than the slack less one second apart. */
  lemma WritesAreApart(stored: int, interval: nat, last: int, reqs: seq<Req>, j: nat, k: nat)
    requires IntervalOk(interval) && Chronological(last, interval, reqs) && Tracks(stored, interval, last)
    requires j < k < |reqs| && Extends(stored, interval, reqs, j) && Extends(stored, interval, reqs, k)
    requires forall m :: j < m < k ==> !Extends(stored, interval, reqs, m)
    ensures reqs[k].later - reqs[j].later > Slack(interval) - SEC
  {
    StoredSince(stored, interval, last, reqs, j, k);
    RunTracks(stored, interval, last, reqs, k);
  }

  /** A session created at `now` lives and expires like that from its creation on. */
  lemma NewSession(now: int, interval: nat, reqs: seq<Req>, i: nat)
    requires IntervalOk(interval) && NowOk(now, interval) && Chronological(now, interval, reqs) && i < |reqs|
    ensures var stored := (now + interval) / SEC;
            && ((forall j :: 0 <= j <= i ==> reqs[j].now - LastActive(now, reqs, j) <= interval - Slack(interval)) ==>
                  StoredAt(stored, interval, reqs, i + 1).Alive?)
            && (reqs[i].now - LastActive(now, reqs, i) > interval ==> StoredAt(stored, interval, reqs, i + 1).Expired?)
  {
    hide StoredAt, LastActive, Tracks;
    var stored := (now + interval) / SEC;
    CreationTracks(now, interval);
    if forall j :: 0 <= j <= i ==> reqs[j].now - LastActive(now, reqs, j) <= interval - Slack(interval) {
      ActiveSessionLives(stored, interval, now, reqs, i + 1);
    }
    if reqs[i].now - LastActive(now, reqs, i) > interval {
      IdleSessionExpires(stored, interval, now, reqs, i);
    }
  }
}
