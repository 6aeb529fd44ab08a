/** Time-based one-time passwords: the replay guard (section 5.2 of RFC 6238),
    recovery codes and step-up sessions (internal/service/totp.go). Times are
    integers on the process clock; every operation is handed the readings it
    takes. */
module Totp {
  import opened Strings

  /** The deployment: the TOTP parameters, and the cryptography as
      uninterpreted functions. */
  datatype Env = Env(
    period: int,
    skew: nat,
    ttl: int,                               // how long a burned code stays burned
    codeAt: (string, int) -> string,        // the code of a secret for a time step
    verify: (string, string, int) -> bool,  // the library's check of a code at a time
    hash: string -> string,                 // bcrypt.GenerateFromPassword
    hashMatches: (string, string) -> bool)  // bcrypt.CompareHashAndPassword
  {
    ghost predicate Valid() {
      period > 0 && ttl == period * (2 * skew + 1)
    }

    /** The time step is at most `skew` steps away at time t. */
    ghost predicate InWindow(step: int, t: int)
      requires Valid()
    {
      t / period - skew <= step <= t / period + skew
    }

    /** What RFC 6238 asks of the library's check: a code is accepted at time t
        when it is the code of a time step in the window. */
    ghost predicate AcceptsWindow()
      requires Valid()
    {
      forall secret, step, t | InWindow(step, t) :: verify(secret, codeAt(secret, step), t)
    }
  }

  datatype Row = Row(secret: string, enabled: bool, recoveryCodes: seq<string>, lastUsed: int)

  /** `replay` holds the expiry of every burned "user:code". */
  datatype State = State(replay: map<string, int>, rows: map<string, Row>)

  datatype Login = NotEnrolled | NotEnabled | InvalidCode | ByCode | ByRecoveryCode

  function ReplayKey(user: string, code: string): string {
    user + ":" + code
  }

  /** Codes without a colon keep the keys of different users apart. */
  lemma ReplayKeyInjective(user: string, code: string, user': string, code': string)
    requires ':' !in code && ':' !in code' && ReplayKey(user, code) == ReplayKey(user', code')
    ensures user == user' && code == code'
  {
    AfterLastOf(user, code, ':');
    AfterLastOf(user', code', ':');
    assert ReplayKey(user, code) == user + [':'] + code;
    assert ReplayKey(user', code') == user' + [':'] + code';
    assert user == ReplayKey(user, code)[..|user|];
  }

  predicate Burned(replay: map<string, int>, key: string, now: int) {
    key in replay && replay[key] > now
  }

  /** The first stored hash that accepts the code. */
  function FirstMatch(env: Env, hashes: seq<string>, code: string): (r: Option<nat>)
    ensures r.Some? ==> r.value < |hashes| && env.hashMatches(hashes[r.value], code)
    ensures r.None? ==> forall i | 0 <= i < |hashes| :: !env.hashMatches(hashes[i], code)
  {
    if hashes == [] then None
    else if env.hashMatches(hashes[0], code) then Some(0)
    else
      match FirstMatch(env, hashes[1..], code)
      case None => None
      case Some(i) => Some(i + 1)
  }

  lemma {:induction false} FirstMatchUnique(env: Env, hashes: seq<string>, code: string, i: nat)
    requires i < |hashes| && env.hashMatches(hashes[i], code)
    requires forall j | 0 <= j < i :: !env.hashMatches(hashes[j], code)
    ensures FirstMatch(env, hashes, code) == Some(i)
  {
    if i > 0 {
      FirstMatchUnique(env, hashes[1..], code, i - 1);
    }
  }

  function Drop(hashes: seq<string>, i: nat): seq<string>
    requires i < |hashes|
  {
    hashes[..i] + hashes[i + 1..]
  }

  /** What a login attempt does with the trimmed input. `verifyNow` and `markNow` are the clock
      readings of the code check and of the replay guard. */
  function Attempt(env: Env, st: State, user: string, code: string, verifyNow: int, markNow: int): (State, Login)
  {
    if user !in st.rows then (st, NotEnrolled)
    else
      var row := st.rows[user];
      var key := ReplayKey(user, code);
      if !row.enabled then (st, NotEnabled)
      else if code == "" then (st, InvalidCode)
      else if env.verify(row.secret, code, verifyNow) then
        if Burned(st.replay, key, markNow) then (st, InvalidCode)
        else (State(st.replay[key := markNow + env.ttl], st.rows[user := row.(lastUsed := markNow)]), ByCode)
      else
        match FirstMatch(env, row.recoveryCodes, Lower(code))
        case None => (st, InvalidCode)
        case Some(i) =>
          var left := Drop(row.recoveryCodes, i);
          (st.(rows := st.rows[user := row.(recoveryCodes := left, lastUsed := markNow)]), ByRecoveryCode)
  }

  /** The sweep of the replay table. */
  function Swept(replay: map<string, int>, now: int): map<string, int> {
    map k | k in replay && replay[k] > now :: replay[k]
  }

  /** A step-up session waiting for its second phase. */
  datatype Pending = Pending(identity: Bytes, expires: int)

  /** Why a password confirmation fails, or that it succeeds. */
  datatype Reauth = NoUser | NoPassword | WrongPassword | Confirmed

  datatype Recovery = Refused(reason: Reauth) | NoRow | RowDisabled | Issued(plain: seq<string>)

  class TotpService {
    const env: Env
    var replay: map<string, int>
    var rows: map<string, Row>
    var pending: map<string, Pending>
    const pendingTTL: int

    constructor (env: Env, rows: map<string, Row>, pendingTTL: int)
      ensures this.env == env && this.pendingTTL == pendingTTL
      ensures replay == map[] && pending == map[] && this.rows == rows
    {
      this.env, this.rows, this.pendingTTL := env, rows, pendingTTL;
      replay, pending := map[], map[];
    }

    ghost function View(): State
      reads this
    {
      State(replay, rows)
    }

    method MarkReplay(user: string, code: string, now: int) returns (isFresh: bool)
      requires env.Valid()
      modifies this`replay
      ensures isFresh == !Burned(old(replay), ReplayKey(user, code), now)
      ensures replay == if isFresh then old(replay)[ReplayKey(user, code) := now + env.ttl] else old(replay)
    {
      var key := user + ":" + code;
      var ttl := env.period * (2 * env.skew + 1);
      if key in replay && replay[key] > now {
        return false;
      }
      replay := replay[key := now + ttl];
      return true;
    }

    method VerifyForLogin(user: string, input: string, verifyNow: int, markNow: int) returns (r: Login)
      requires env.Valid()
      modifies this`replay, this`rows
      ensures (View(), r) == Attempt(env, old(View()), user, TrimSpace(input), verifyNow, markNow)
    {
      r := VerifyTrimmed(user, TrimSpace(input), verifyNow, markNow);
    }

    method VerifyTrimmed(user: string, code: string, verifyNow: int, markNow: int) returns (r: Login)
      requires env.Valid()
      modifies this`replay, this`rows
      ensures (View(), r) == Attempt(env, old(View()), user, code, verifyNow, markNow)
    {
      if user !in rows {
        return NotEnrolled;
      }
      var row := rows[user];
      if !row.enabled {
        return NotEnabled;
      }
      if code == "" {
        return InvalidCode;
      }
      if env.verify(row.secret, code, verifyNow) {
        var isFresh := MarkReplay(user, code, markNow);
        if !isFresh {
          return InvalidCode;
        }
        rows := rows[user := row.(lastUsed := markNow)];
        return ByCode;
      }
      var used := UseRecoveryCode(user, row, Lower(code), markNow);
      return if used then ByRecoveryCode else InvalidCode;
    }

    /** The first stored hash that accepts the code is dropped. */
    method UseRecoveryCode(user: string, row: Row, code: string, markNow: int) returns (used: bool)
      modifies this`rows
      ensures used <==> FirstMatch(env, row.recoveryCodes, code).Some?
      ensures rows == if !used then old(rows) else
                old(rows)[user := row.(recoveryCodes := Drop(row.recoveryCodes,
                    FirstMatch(env, row.recoveryCodes, code).value),
                                       lastUsed := markNow)]
    {
      var hashes := row.recoveryCodes;
      for i := 0 to |hashes|
        invariant rows == old(rows)
        invariant forall j | 0 <= j < i :: !env.hashMatches(hashes[j], code)
      {
        if env.hashMatches(hashes[i], code) {
          var updated := hashes[..i];
          updated := updated + hashes[i + 1..];
          FirstMatchUnique(env, hashes, code, i);
          rows := rows[user := row.(recoveryCodes := updated, lastUsed := markNow)];
          return true;
        }
      }
      return false;
    }

    method Gc(now: int)
      modifies this`replay, this`pending
      ensures replay == Swept(old(replay), now)
      ensures forall k :: k in replay <==> k in old(replay) && old(replay)[k] > now
      ensures pending == SweptPending(old(pending), now)
      ensures forall s :: s in pending <==> s in old(pending) && old(pending)[s].expires > now
    {
      var keys := replay.Keys;
      while keys != {}
        invariant keys <= old(replay).Keys
        invariant replay == map k | k in old(replay) && (k in keys || old(replay)[k] > now) :: old(replay)[k]
        invariant pending == old(pending)
      {
        var k :| k in keys;
        keys := keys - {k};
        if replay[k] <= now {
          replay := replay - {k};
        }
      }
      var sids := pending.Keys;
      while sids != {}
        invariant sids <= old(pending).Keys
        invariant replay == Swept(old(replay), now)
        invariant pending == map s | s in old(pending) && (s in sids || old(pending)[s].expires > now) ::
                    old(pending)[s]
      {
        var s :| s in sids;
        sids := sids - {s};
        if pending[s].expires <= now {
          pending := pending - {s};
        }
      }
    }

    /** The session id comes from the random source. */
    method SavePending(sid: string, identity: Bytes, now: int)
      modifies this`pending
      ensures pending == old(pending)[sid := Pending(identity, now + pendingTTL)]
    {
      pending := pending[sid := Pending(identity, now + pendingTTL)];
    }

    method ConsumePending(sid: string, now: int) returns (r: Option<Bytes>)
      modifies this`pending
      ensures (pending, r) == Redeem(old(pending), sid, now)
    {
      if sid !in pending {
        return None;
      }
      var entry := pending[sid];
      pending := pending - {sid};
      if now > entry.expires {
        return None;
      }
      return Some(entry.identity);
    }

    /** The draws are what the random source returned, twelve characters each. */
    method RegenerateRecoveryCodes(user: string, reauth: Reauth, draws: seq<string>) returns (r: Recovery)
      requires |draws| == 10 && forall d | d in draws :: |d| == 12
      modifies this`rows
      ensures r.Issued? <==> reauth.Confirmed? && user in old(rows) && old(rows)[user].enabled
      ensures !r.Issued? ==> rows == old(rows)
      ensures r.Issued? ==>
                && |r.plain| == 10
                && rows == old(rows)[user := old(rows)[user].(recoveryCodes := HashesOf(env, r.plain))]
                && forall i | 0 <= i < 10 :: r.plain[i] == Grouped(draws[i])
    {
      if reauth != Confirmed {
        return Refused(reauth);
      }
      if user !in rows {
        return NoRow;
      }
      if !rows[user].enabled {
        return RowDisabled;
      }
      var plain, hashed := NewRecoveryCodes(env, draws);
      rows := rows[user := rows[user].(recoveryCodes := hashed)];
      return Issued(plain);
    }
  }

  /** A draw with dashes after positions 4 and 8. */
  function Grouped(raw: string): string
    requires |raw| == 12
  {
    raw[..4] + "-" + raw[4..8] + "-" + raw[8..]
  }

  /** Three groups of four, which together are the draw. */
  lemma GroupedShape(raw: string)
    requires |raw| == 12 && '-' !in raw
    ensures var groups := Split(Grouped(raw), '-');
            |groups| == 3 && groups[0] + groups[1] + groups[2] == raw && |groups[0]| == |groups[1]| == |groups[2]| == 4
  {
    var a, b, c := raw[..4], raw[4..8], raw[8..];
    var groups := [a, b, c];
    JoinFirst(b, [c], '-');
    JoinFirst(a, [b, c], '-');
    assert [b] + [c] == [b, c] && [a] + [b, c] == groups;
    assert a + ['-'] + (b + ['-'] + c) == a + "-" + b + "-" + c;
    assert Join(groups, '-') == Grouped(raw);
    SplitJoin(groups, '-');
    assert a + b + c == raw;
  }

  function HashesOf(env: Env, plain: seq<string>): (r: seq<string>)
    ensures |r| == |plain|
  {
    seq(|plain|, i requires 0 <= i < |plain| => env.hash(Lower(plain[i])))
  }

  method NewRecoveryCodes(env: Env, draws: seq<string>) returns (plain: seq<string>, hashed: seq<string>)
    requires forall d | d in draws :: |d| == 12
    ensures |plain| == |draws| && forall i | 0 <= i < |plain| :: plain[i] == Grouped(draws[i])
    ensures hashed == HashesOf(env, plain)
  {
    plain, hashed := [], [];
    for i := 0 to |draws|
      invariant |plain| == |hashed| == i
      invariant forall j | 0 <= j < i :: plain[j] == Grouped(draws[j]) && hashed[j] == env.hash(Lower(plain[j]))
    {
      var raw := draws[i];
      var formatted := raw[..4] + "-" + raw[4..8] + "-" + raw[8..];
      plain := plain + [formatted];
      hashed := hashed + [env.hash(Lower(formatted))];
    }
  }

  // ---- Runs ----

  datatype Event =
    | LoginEvent(user: string, code: string, verifyNow: int, markNow: int)
    | GcEvent(now: int)
    | EnrollEvent(user: string, row: Row)     // FinishEnroll, RegenerateRecoveryCodes: a new row is stored
    | DisableEvent(user: string)

  function Apply(env: Env, st: State, e: Event): State
  {
    match e
    case LoginEvent(user, code, v, m) => Attempt(env, st, user, code, v, m).0
    case GcEvent(now) => st.(replay := Swept(st.replay, now))
    case EnrollEvent(user, row) => st.(rows := st.rows[user := row])
    case DisableEvent(user) => st.(rows := st.rows - {user})
  }

  function Outcome(env: Env, st: State, e: Event): Login
    requires e.LoginEvent?
  {
    Attempt(env, st, e.user, e.code, e.verifyNow, e.markNow).1
  }

  function After(env: Env, st: State, events: seq<Event>): State
    decreases |events|
  {
    if events == [] then st else After(env, Apply(env, st, events[0]), events[1..])
  }

  lemma {:induction false} AfterSplits(env: Env, st: State, a: seq<Event>, b: seq<Event>)
    ensures After(env, st, a + b) == After(env, After(env, st, a), b)
    decreases |a|
  {
    if a == [] {
      assert a + b == b;
    } else {
      assert (a + b)[1..] == a[1..] + b;
      AfterSplits(env, Apply(env, st, a[0]), a[1..], b);
    }
  }

  /** The clock never runs backwards, from `from` on. */
  ghost predicate Monotone(events: seq<Event>, from: int)
    decreases |events|
  {
    events == [] || (
      match events[0]
      case LoginEvent(_, _, v, m) => from <= v <= m && Monotone(events[1..], m)
      case GcEvent(now) => from <= now && Monotone(events[1..], now)
      case _ => Monotone(events[1..], from)
    )
  }

  ghost function Clock(events: seq<Event>, from: int): int {
    if events == [] then from
    else
      match events[0]
      case LoginEvent(_, _, _, m) => Clock(events[1..], m)
      case GcEvent(now) => Clock(events[1..], now)
      case _ => Clock(events[1..], from)
  }

  /** The login at position i of the run. */
  ghost predicate AcceptedAt(env: Env, st: State, events: seq<Event>, i: nat, key: string)
  {
    && i < |events|
    && events[i].LoginEvent?
    && ReplayKey(events[i].user, events[i].code) == key
    && Outcome(env, After(env, st, events[..i]), events[i]) == ByCode
  }

  // ---- What a login changes ----

  /** Which logins succeed, and why the others fail. */
  lemma LoginOutcome(env: Env, st: State, user: string, code: string, verifyNow: int, markNow: int)
    ensures var r := Attempt(env, st, user, code, verifyNow, markNow).1;
            && (r == NotEnrolled <==> user !in st.rows)
            && (r == NotEnabled <==> user in st.rows && !st.rows[user].enabled)
            && (r == ByCode <==>
                  && user in st.rows && st.rows[user].enabled && code != ""
                  && env.verify(st.rows[user].secret, code, verifyNow)
                  && (user + ":" + code in st.replay ==> st.replay[user + ":" + code] <= markNow))
            && (r == ByRecoveryCode <==>
                  && user in st.rows && st.rows[user].enabled && code != ""
                  && !env.verify(st.rows[user].secret, code, verifyNow)
                  && exists h | h in st.rows[user].recoveryCodes :: env.hashMatches(h, Lower(code)))
  {
    if user in st.rows {
      var row := st.rows[user];
      var first := FirstMatch(env, row.recoveryCodes, Lower(code));
      if h :| h in row.recoveryCodes && env.hashMatches(h, Lower(code)) {
        var i :| 0 <= i < |row.recoveryCodes| && row.recoveryCodes[i] == h;
        assert first.Some?;
      }
      assert first.Some? ==> row.recoveryCodes[first.value] in row.recoveryCodes;
    }
  }

  /** A refused login changes nothing. Any other stamps the user's row and leaves
      its secret, that it is enabled, and every other row alone. */
  lemma LoginFrame(env: Env, st: State, user: string, code: string, verifyNow: int, markNow: int)
    ensures var (st', r) := Attempt(env, st, user, code, verifyNow, markNow);
            && (r != ByCode && r != ByRecoveryCode ==> st' == st)
            && st'.rows.Keys == st.rows.Keys
            && (forall u | u in st.rows && u != user :: st'.rows[u] == st.rows[u])
            && (user in st.rows ==>
                  st'.rows[user].secret == st.rows[user].secret && st'.rows[user].enabled == st.rows[user].enabled)
            && (r == ByCode || r == ByRecoveryCode ==> st'.rows[user].lastUsed == markNow)
  {
  }

  /** A login by code burns it for the whole window and keeps the recovery codes;
      one by recovery code burns nothing and takes the first hash that accepts. */
  lemma LoginEffect(env: Env, st: State, user: string, code: string, verifyNow: int, markNow: int)
    returns (i: nat)
    ensures var (st', r) := Attempt(env, st, user, code, verifyNow, markNow);
            && (r == ByCode ==>
                  && st'.replay == st.replay[user + ":" + code := markNow + env.ttl]
                  && st'.rows[user].recoveryCodes == st.rows[user].recoveryCodes)
            && (r == ByRecoveryCode ==>
                  && st'.replay == st.replay
                  && var hashes := st.rows[user].recoveryCodes;
                     && i < |hashes| && env.hashMatches(hashes[i], Lower(code))
                     && (forall j | 0 <= j < i :: !env.hashMatches(hashes[j], Lower(code)))
                     && st'.rows[user].recoveryCodes == hashes[..i] + hashes[i + 1..])
  {
    i := 0;
    if Attempt(env, st, user, code, verifyNow, markNow).1 == ByRecoveryCode {
      var hashes := st.rows[user].recoveryCodes;
      i := FirstMatch(env, hashes, Lower(code)).value;
      FirstMatchFirst(env, hashes, Lower(code));
    }
  }

  lemma {:induction false} FirstMatchFirst(env: Env, hashes: seq<string>, code: string)
    ensures var r := FirstMatch(env, hashes, code);
            r.Some? ==> forall j | 0 <= j < r.value :: !env.hashMatches(hashes[j], code)
  {
    if hashes != [] && !env.hashMatches(hashes[0], code) {
      FirstMatchFirst(env, hashes[1..], code);
      var r := FirstMatch(env, hashes[1..], code);
      if r.Some? {
        forall j | 0 <= j < r.value + 1
          ensures !env.hashMatches(hashes[j], code)
        {
          assert j > 0 ==> hashes[j] == hashes[1..][j - 1];
        }
      }
    }
  }

  /** Over any run without an enrolment or a removal of theirs, a user's secret
      and whether the second factor is on stay as they are, whoever logs in. */
  lemma {:induction false} EnrolmentKept(env: Env, st: State, events: seq<Event>, user: string)
    requires forall e | e in events :: (e.EnrollEvent? || e.DisableEvent?) ==> e.user != user
    ensures var st' := After(env, st, events);
            && (user in st'.rows <==> user in st.rows)
            && (user in st.rows ==>
                  st'.rows[user].secret == st.rows[user].secret && st'.rows[user].enabled == st.rows[user].enabled)
    decreases |events|
  {
    if events != [] {
      var e := events[0];
      assert e in events;
      assert forall x | x in events[1..] :: x in events;
      if e.LoginEvent? {
        LoginFrame(env, st, e.user, e.code, e.verifyNow, e.markNow);
      }
      EnrolmentKept(env, Apply(env, st, e), events[1..], user);
    }
  }

  // ---- Single use ----

  /** The code cannot be accepted before `until`. */
  ghost predicate HeldUntil(st: State, key: string, until: int, now: int) {
    now >= until || (key in st.replay && st.replay[key] >= until)
  }

  lemma {:induction false} HoldPersists(env: Env, st: State, events: seq<Event>, key: string, until: int, now: int)
    requires env.Valid() && Monotone(events, now) && HeldUntil(st, key, until, now)
    ensures HeldUntil(After(env, st, events), key, until, Clock(events, now))
    decreases |events|
  {
    if events != [] {
      TtlPositive(env);
      var st' := Apply(env, st, events[0]);
      match events[0] {
        case LoginEvent(_, _, v, m) => HoldPersists(env, st', events[1..], key, until, m);
        case GcEvent(g) => HoldPersists(env, st', events[1..], key, until, g);
        case _ => HoldPersists(env, st', events[1..], key, until, now);
      }
    }
  }

  lemma TtlPositive(env: Env)
    requires env.Valid()
    ensures env.ttl > 0
  {
  }

  lemma {:induction false} MonotoneSplits(a: seq<Event>, b: seq<Event>, from: int)
    requires Monotone(a + b, from)
    ensures Monotone(a, from) && Monotone(b, Clock(a, from))
    decreases |a|
  {
    if a == [] {
      assert a + b == b;
    } else {
      assert (a + b)[1..] == a[1..] + b;
      match a[0] {
        case LoginEvent(_, _, v, m) => MonotoneSplits(a[1..], b, m);
        case GcEvent(g) => MonotoneSplits(a[1..], b, g);
        case _ => MonotoneSplits(a[1..], b, from);
      }
    }
  }

  lemma AcceptanceHolds(env: Env, st: State, e: Event)
    requires env.Valid() && e.LoginEvent? && Outcome(env, st, e) == ByCode
    ensures HeldUntil(Apply(env, st, e), ReplayKey(e.user, e.code), e.markNow + env.ttl, e.markNow)
  {
  }

  lemma HoldRejects(env: Env, st: State, e: Event, until: int, now: int)
    requires env.Valid() && e.LoginEvent? && now <= e.markNow
    requires HeldUntil(st, ReplayKey(e.user, e.code), until, now)
    requires Outcome(env, st, e) == ByCode
    ensures e.markNow >= until
  {
  }

  /** A run, cut behind the login at position i. */
  lemma CutBehind(env: Env, st: State, events: seq<Event>, from: int, i: nat)
    requires env.Valid() && Monotone(events, from) && i < |events| && events[i].LoginEvent?
    ensures After(env, st, events[..i + 1]) == Apply(env, After(env, st, events[..i]), events[i])
    ensures Clock(events[..i], from) <= events[i].verifyNow <= events[i].markNow
    ensures Monotone(events[i + 1..], events[i].markNow)
  {
    TakeNext(events, i);
    AfterSplits(env, st, events[..i], [events[i]]);
    assert [events[i]][1..] == [];
    assert events == events[..i] + events[i..];
    MonotoneSplits(events[..i], events[i..], from);
    assert events[i..][1..] == events[i + 1..];
  }

  /** Whatever happens in between, sweeps included, a code that was accepted is
      not accepted again before its entry expires. */
  lemma AcceptedAgainOnlyAfterTtl(env: Env, st: State, events: seq<Event>, from: int, key: string, i: nat, j: nat)
    requires env.Valid() && Monotone(events, from) && i < j
    requires AcceptedAt(env, st, events, i, key) && AcceptedAt(env, st, events, j, key)
    ensures events[j].markNow >= events[i].markNow + env.ttl
  {
    var until, now := events[i].markNow + env.ttl, events[i].markNow;
    var between := events[i + 1..][..j - i - 1];
    CutBehind(env, st, events, from, i);
    AcceptanceHolds(env, After(env, st, events[..i]), events[i]);
    Between(env, st, events, from, i, j);
    HoldPersists(env, After(env, st, events[..i + 1]), between, key, until, now);
    HoldRejects(env, After(env, st, events[..j]), events[j], until, Clock(between, now));
  }

  /** What happens between two logins of a run. */
  lemma Between(env: Env, st: State, events: seq<Event>, from: int, i: nat, j: nat)
    requires env.Valid() && Monotone(events, from) && i < j < |events| && events[i].LoginEvent? && events[j].LoginEvent?
    ensures var between := events[i + 1..][..j - i - 1];
            && After(env, st, events[..j]) == After(env, After(env, st, events[..i + 1]), between)
            && Monotone(between, events[i].markNow) && Clock(between, events[i].markNow) <= events[j].markNow
  {
    var rest, k := events[i + 1..], j - i - 1;
    CutBehind(env, st, events, from, i);
    CutBehind(env, st, rest, events[i].markNow, k);
    assert rest == rest[..k] + rest[k..];
    MonotoneSplits(rest[..k], rest[k..], events[i].markNow);
    assert events[..j] == events[..i + 1] + rest[..k];
    AfterSplits(env, st, events[..i + 1], rest[..k]);
  }

  lemma WindowBounds(env: Env, step: int, t: int)
    requires env.Valid()
    ensures env.InWindow(step, t) <==> (step - env.skew) * env.period <= t < (step + env.skew + 1) * env.period
  {
    var p, q := env.period, t / env.period;
    assert t == q * p + t % p;
    FloorAtLeast(step - env.skew, q, p, t);
    FloorAtLeast(step + env.skew + 1, q, p, t);
  }

  lemma FloorAtLeast(a: int, q: int, p: int, t: int)
    requires p > 0 && q * p <= t < q * p + p
    ensures a <= q <==> a * p <= t
  {
    if a <= q {
      assert a * p <= q * p;
    } else {
      assert a * p >= (q + 1) * p;
    }
  }

  /** The replay guard's lifetime covers the whole acceptance window of a time
      step: if a user's code for one step is accepted twice, the second attempt
      was checked inside the window but reached the replay guard only after the
      window had closed. */
  lemma SecondUseStraddlesWindow(env: Env, st: State, events: seq<Event>, from: int, key: string, step: int, i: nat,
      j: nat)
    requires env.Valid() && Monotone(events, from) && i < j
    requires AcceptedAt(env, st, events, i, key) && env.InWindow(step, events[i].verifyNow)
    requires AcceptedAt(env, st, events, j, key) && env.InWindow(step, events[j].verifyNow)
    ensures events[j].verifyNow < (step + env.skew + 1) * env.period <= events[j].markNow
  {
    AcceptedAgainOnlyAfterTtl(env, st, events, from, key, i, j);
    CutBehind(env, st, events, from, i);
    WindowBounds(env, step, events[i].verifyNow);
    WindowBounds(env, step, events[j].verifyNow);
    TtlSpansWindow(env, step);
  }

  lemma TtlSpansWindow(env: Env, step: int)
    requires env.Valid()
    ensures (step - env.skew) * env.period + env.ttl == (step + env.skew + 1) * env.period
  {
  }

  /** So a code is single-use in every run in which no attempt's two clock
      readings lie in different periods, as when the clock is read once. */
  lemma SingleUse(env: Env, st: State, events: seq<Event>, from: int, key: string, step: int, i: nat, j: nat)
    requires env.Valid() && Monotone(events, from) && i < j
    requires forall e | e in events && e.LoginEvent? :: e.verifyNow / env.period == e.markNow / env.period
    requires AcceptedAt(env, st, events, i, key) && env.InWindow(step, events[i].verifyNow)
    requires j < |events| && events[j].LoginEvent? && env.InWindow(step, events[j].verifyNow)
    ensures !AcceptedAt(env, st, events, j, key)
  {
    if AcceptedAt(env, st, events, j, key) {
      SecondUseStraddlesWindow(env, st, events, from, key, step, i, j);
      WindowBounds(env, step, events[j].markNow);
    }
  }

  /** The exact condition for a second use: the guard is asked for the first
      time at or after the entry's expiry. `between` may hold sweeps, enrolments
      and attempts with other codes. */
  lemma SecondUseExact(env: Env, st: State, between: seq<Event>, first: Event, second: Event)
    requires env.Valid() && first.LoginEvent? && second.LoginEvent?
    requires Monotone([first] + between + [second], first.verifyNow)
    requires first.user == second.user && first.code == second.code
    requires Outcome(env, st, first) == ByCode
    requires forall e | e in between && e.LoginEvent? ::
               ReplayKey(e.user, e.code) != ReplayKey(first.user, first.code)
    ensures var st' := After(env, Apply(env, st, first), between);
            second.user in st'.rows && st'.rows[second.user].enabled
            && env.verify(st'.rows[second.user].secret, second.code, second.verifyNow)
            ==> (Outcome(env, st', second) == ByCode <==> second.markNow >= first.markNow + env.ttl)
  {
    var key, expiry := ReplayKey(first.user, first.code), first.markNow + env.ttl;
    var st1 := Apply(env, st, first);
    AcceptanceHolds(env, st, first);
    assert ([first] + between + [second])[1..] == between + [second];
    MonotoneSplits(between, [second], first.markNow);
    HoldPersists(env, st1, between, key, expiry, first.markNow);
    ExpiryKept(env, st1, between, key, expiry);
  }

  lemma {:induction false} ExpiryKept(env: Env, st: State, events: seq<Event>, key: string, expiry: int)
    requires env.Valid() && (key in st.replay ==> st.replay[key] == expiry)
    requires forall e | e in events && e.LoginEvent? :: ReplayKey(e.user, e.code) != key
    ensures var st' := After(env, st, events); key in st'.replay ==> st'.replay[key] == expiry
    decreases |events|
  {
    if events != [] {
      assert events[0] in events;
      assert forall e | e in events[1..] :: e in events;
      ExpiryKept(env, Apply(env, st, events[0]), events[1..], key, expiry);
    }
  }

  /** The condition is needed. A code first used at the very start of its
      window, and tried again at its last instant with the clock passing the
      window's end between the check and the guard, is accepted twice, for
      every period and skew. */
  lemma CodeAcceptedTwice(env: Env, user: string, code: string, secret: string, step: int)
    requires env.Valid() && env.AcceptsWindow()
    requires code != "" && env.codeAt(secret, step) == code
    ensures var open, close := (step - env.skew) * env.period, (step + env.skew + 1) * env.period;
            var st := State(map[], map[user := Row(secret, true, [], 0)]);
            var events := [LoginEvent(user, code, open, open), LoginEvent(user, code, close - 1, close)];
            && Monotone(events, open)
            && AcceptedAt(env, st, events, 0, ReplayKey(user, code))
            && AcceptedAt(env, st, events, 1, ReplayKey(user, code))
  {
    var open, close := (step - env.skew) * env.period, (step + env.skew + 1) * env.period;
    var st := State(map[], map[user := Row(secret, true, [], 0)]);
    var first, second := LoginEvent(user, code, open, open), LoginEvent(user, code, close - 1, close);
    var events := [first, second];
    TtlPositive(env);
    TtlSpansWindow(env, step);
    WindowBounds(env, step, open);
    WindowBounds(env, step, close - 1);
    FreshCodeAccepted(env, st, first);
    assert events[..0] == [] && events[..1] == [first] && events[1..] == [second] && [second][1..] == [];
    assert [first][1..] == [];
    var st1 := Apply(env, st, first);
    assert st1 == After(env, st, events[..1]);
    FreshCodeAccepted(env, st1, second);
  }

  lemma FreshCodeAccepted(env: Env, st: State, e: Event)
    requires env.Valid() && e.LoginEvent? && e.user in st.rows && st.rows[e.user].enabled
    requires e.code != "" && env.verify(st.rows[e.user].secret, e.code, e.verifyNow)
    requires !Burned(st.replay, ReplayKey(e.user, e.code), e.markNow)
    ensures Outcome(env, st, e) == ByCode
    ensures Apply(env, st, e).replay == st.replay[ReplayKey(e.user, e.code) := e.markNow + env.ttl]
    ensures Apply(env, st, e).rows == st.rows[e.user := st.rows[e.user].(lastUsed := e.markNow)]
  {
  }

  // ---- The sweep is unobservable ----

  /** The same rows, and the same entries still alive at `now`. */
  ghost predicate SameLive(a: State, b: State, now: int) {
    && a.rows == b.rows
    && Swept(a.replay, now) == Swept(b.replay, now)
  }

  function Outcomes(env: Env, st: State, events: seq<Event>): seq<Login>
    decreases |events|
  {
    if events == [] then []
    else
      (if events[0].LoginEvent? then [Outcome(env, st, events[0])] else [])
      + Outcomes(env, Apply(env, st, events[0]), events[1..])
  }

  function WithoutGc(events: seq<Event>): seq<Event> {
    if events == [] then []
    else (if events[0].GcEvent? then [] else [events[0]]) + WithoutGc(events[1..])
  }

  lemma SweepLater(a: map<string, int>, b: map<string, int>, now: int, later: int)
    requires Swept(a, now) == Swept(b, now) && now <= later
    ensures Swept(a, later) == Swept(b, later)
    ensures forall k :: Burned(a, k, later) <==> Burned(b, k, later)
  {
    forall k
      ensures Burned(a, k, later) <==> Burned(b, k, later)
      ensures Burned(a, k, later) ==> a[k] == b[k]
    {
      assert Burned(a, k, later) ==> k in Swept(a, now) && Swept(a, now)[k] == a[k];
      assert Burned(b, k, later) ==> k in Swept(b, now) && Swept(b, now)[k] == b[k];
    }
  }

  /** Sweeping at any times whatever leaves every login's outcome unchanged. */
  lemma GcUnobservable(env: Env, st: State, events: seq<Event>, from: int)
    requires env.Valid() && Monotone(events, from)
    ensures Outcomes(env, st, events) == Outcomes(env, st, WithoutGc(events))
  {
    GcUnobservableFrom(env, st, st, events, from);
  }

  lemma {:induction false} GcUnobservableFrom(env: Env, a: State, b: State, events: seq<Event>, now: int)
    requires env.Valid() && Monotone(events, now) && SameLive(a, b, now)
    ensures Outcomes(env, a, events) == Outcomes(env, b, WithoutGc(events))
    decreases |events|
  {
    if events != [] {
      var e, rest := events[0], events[1..];
      match e {
        case GcEvent(g) =>
          SweepLater(a.replay, b.replay, now, g);
          assert Swept(Swept(a.replay, g), g) == Swept(a.replay, g);
          GcUnobservableFrom(env, Apply(env, a, e), b, rest, g);
          assert WithoutGc(events) == WithoutGc(rest);
          assert Outcomes(env, a, events) == Outcomes(env, Apply(env, a, e), rest);
        case LoginEvent(_, _, v, m) =>
          LoginKeepsSameLive(env, a, b, e, now);
          GcUnobservableFrom(env, Apply(env, a, e), Apply(env, b, e), rest, m);
          assert WithoutGc(events)[1..] == WithoutGc(rest);
        case _ =>
          GcUnobservableFrom(env, Apply(env, a, e), Apply(env, b, e), rest, now);
          assert WithoutGc(events)[1..] == WithoutGc(rest);
      }
    }
  }

  lemma LoginKeepsSameLive(env: Env, a: State, b: State, e: Event, now: int)
    requires e.LoginEvent? && now <= e.markNow && SameLive(a, b, now)
    ensures Outcome(env, a, e) == Outcome(env, b, e)
    ensures SameLive(Apply(env, a, e), Apply(env, b, e), e.markNow)
  {
    SweepLater(a.replay, b.replay, now, e.markNow);
    SweptUpdate(a.replay, b.replay, ReplayKey(e.user, e.code), e.markNow + env.ttl, e.markNow);
  }

  lemma SweptUpdate(a: map<string, int>, b: map<string, int>, key: string, value: int, now: int)
    requires Swept(a, now) == Swept(b, now)
    ensures Swept(a[key := value], now) == Swept(b[key := value], now)
  {
    forall k | k != key
      ensures k in Swept(a[key := value], now) <==> k in Swept(b[key := value], now)
      ensures k in Swept(a[key := value], now) ==> a[k] == b[k]
    {
      assert k in Swept(a, now) <==> k in Swept(b, now);
      assert k in Swept(a, now) ==> Swept(a, now)[k] == Swept(b, now)[k];
    }
  }

  // ---- Recovery codes ----

  ghost predicate KeepsEnrollment(events: seq<Event>, user: string) {
    forall e | e in events :: (e.EnrollEvent? || e.DisableEvent?) ==> e.user != user
  }

  function Remaining(st: State, user: string): seq<string> {
    if user in st.rows then st.rows[user].recoveryCodes else []
  }

  /** The user's logins by recovery code in the run. */
  function RecoveryLogins(env: Env, st: State, events: seq<Event>, user: string): nat
    decreases |events|
  {
    if events == [] then 0
    else
      (if events[0].LoginEvent? && events[0].user == user && Outcome(env, st, events[0]) == ByRecoveryCode then 1
          else 0)
      + RecoveryLogins(env, Apply(env, st, events[0]), events[1..], user)
  }

  lemma RecoveryStep(env: Env, st: State, e: Event, user: string)
    requires env.Valid() && ((e.EnrollEvent? || e.DisableEvent?) ==> e.user != user)
    ensures Remaining(Apply(env, st, e), user) ==
              if e.LoginEvent? && e.user == user && Outcome(env, st, e) == ByRecoveryCode
              then Drop(Remaining(st, user), FirstMatch(env, Remaining(st, user), Lower(e.code)).value)
              else Remaining(st, user)
  {
  }

  /** Between two issues, the logins made with recovery codes and the hashes
      left always add up to the number issued. */
  lemma {:induction false} RecoveryConservation(env: Env, st: State, events: seq<Event>, user: string)
    requires env.Valid() && KeepsEnrollment(events, user)
    ensures RecoveryLogins(env, st, events, user) + |Remaining(After(env, st, events), user)| == |Remaining(st, user)|
    decreases |events|
  {
    if events != [] {
      assert events[0] in events;
      assert forall e | e in events[1..] :: e in events;
      RecoveryStep(env, st, events[0], user);
      RecoveryConservation(env, Apply(env, st, events[0]), events[1..], user);
    }
  }

  /** How many of the hashes accept the code. */
  function Accepting(env: Env, hashes: seq<string>, code: string): nat {
    if hashes == [] then 0
    else (if env.hashMatches(hashes[0], code) then 1 else 0) + Accepting(env, hashes[1..], code)
  }

  lemma {:induction false} AcceptingSplits(env: Env, a: seq<string>, b: seq<string>, code: string)
    ensures Accepting(env, a + b, code) == Accepting(env, a, code) + Accepting(env, b, code)
  {
    if a == [] {
      assert a + b == b;
    } else {
      assert (a + b)[1..] == a[1..] + b;
      AcceptingSplits(env, a[1..], b, code);
    }
  }

  /** The user's logins with this recovery code in the run. */
  function LoginsWith(env: Env, st: State, events: seq<Event>, user: string, code: string): nat
    decreases |events|
  {
    if events == [] then 0
    else
      (if && events[0].LoginEvent? && events[0].user == user && Lower(events[0].code) == code
          && Outcome(env, st, events[0]) == ByRecoveryCode then 1 else 0)
      + LoginsWith(env, Apply(env, st, events[0]), events[1..], user, code)
  }

  /** A code logs in at most as often as it was issued: with hashes of distinct
      codes, at most once. */
  lemma {:induction false} RecoveryCodeUses(env: Env, st: State, events: seq<Event>, user: string, code: string)
    requires env.Valid() && KeepsEnrollment(events, user)
    ensures LoginsWith(env, st, events, user, code) <= Accepting(env, Remaining(st, user), code)
    decreases |events|
  {
    if events != [] {
      var e, st' := events[0], Apply(env, st, events[0]);
      assert e in events;
      assert forall x | x in events[1..] :: x in events;
      RecoveryCodeUses(env, st', events[1..], user, code);
      RecoveryStep(env, st, e, user);
      if e.LoginEvent? && e.user == user && Outcome(env, st, e) == ByRecoveryCode {
        var hashes, typed := Remaining(st, user), Lower(e.code);
        var i := FirstMatch(env, hashes, typed).value;
        AcceptingDropped(env, hashes, i, code);
        assert code == typed ==> env.hashMatches(hashes[i], code);
      }
    }
  }

  lemma AcceptingDropped(env: Env, hashes: seq<string>, i: nat, code: string)
    requires i < |hashes|
    ensures Accepting(env, hashes, code) ==
                Accepting(env, Drop(hashes, i), code) + (if env.hashMatches(hashes[i], code) then 1 else 0)
  {
    assert hashes == hashes[..i] + ([hashes[i]] + hashes[i + 1..]);
    AcceptingSplits(env, hashes[..i], [hashes[i]] + hashes[i + 1..], code);
    AcceptingSplits(env, hashes[..i], hashes[i + 1..], code);
    assert ([hashes[i]] + hashes[i + 1..])[1..] == hashes[i + 1..];
  }

  /** A freshly issued code logs in, typed in any case. */
  lemma IssuedCodeAccepted(env: Env, st: State, user: string, plain: seq<string>, i: nat, typed: string, v: int, m: int)
    requires user in st.rows && st.rows[user].enabled && st.rows[user].recoveryCodes == HashesOf(env, plain)
    requires forall x :: env.hashMatches(env.hash(x), x)
    requires i < |plain| && typed != "" && Lower(typed) == Lower(plain[i])
    requires !env.verify(st.rows[user].secret, typed, v)
    ensures Attempt(env, st, user, typed, v, m).1 == ByRecoveryCode
  {
    var hashes := HashesOf(env, plain);
    assert env.hashMatches(hashes[i], Lower(typed));
  }

  // ---- Step-up sessions ----

  function Redeem(pending: map<string, Pending>, sid: string, now: int): (map<string, Pending>, Option<Bytes>) {
    if sid !in pending then (pending, None)
    else (pending - {sid}, if now > pending[sid].expires then None else Some(pending[sid].identity))
  }

  function SweptPending(pending: map<string, Pending>, now: int): map<string, Pending> {
    map s | s in pending && pending[s].expires > now :: pending[s]
  }

  /** A saved session gives back its identity up to its expiry and nothing
      after, and redeeming it leaves every other one alone. */
  lemma SavedRedeemed(pending: map<string, Pending>, sid: string, identity: Bytes, expires: int, now: int)
    ensures var (left, r) := Redeem(pending[sid := Pending(identity, expires)], sid, now);
            r == (if now <= expires then Some(identity) else None) && left == pending - {sid}
    ensures sid !in pending ==> Redeem(pending, sid, now) == (pending, None)
  {
  }

  /** A session id is redeemed at most once. */
  lemma RedeemedOnce(pending: map<string, Pending>, sid: string, now: int, later: int)
    ensures Redeem(Redeem(pending, sid, now).0, sid, later).1 == None
  {
  }

  /** Unlike the replay table's sweep, this one can be noticed: it drops an
      entry that could still be redeemed, exactly when the sweep and the
      redemption both happen at the entry's expiry. */
  lemma PendingSweepExact(pending: map<string, Pending>, sid: string, sweep: int, now: int)
    requires sweep <= now
    ensures Redeem(SweptPending(pending, sweep), sid, now).1 != Redeem(pending, sid, now).1
       <==> sid in pending && sweep == now == pending[sid].expires
  {
  }
}
