/**
 * The Redis and Upstash rate-limit stores (redis/src/adapter.ts, upstash/src/adapter.ts): one script on one server
 * key, and its equivalence with the in-memory store.
 */
module RedisRateLimit {
  import opened Basics
  import opened RateLimit

  const DEFAULT_KEY_PREFIX := "dsar:rate-limit"

  function StripColons(prefix: string): string
  {
    if prefix != "" && prefix[|prefix| - 1] == ':' then StripColons(prefix[..|prefix| - 1]) else prefix
  }

  function PrefixedKey(prefix: Option<string>, key: string): string
  {
    var resolved := if prefix.Some? then prefix.value else DEFAULT_KEY_PREFIX;
    if resolved == "" then key else StripColons(resolved) + ":" + key
  }

  /** The prefix, without the colons at its end, and one colon; an empty prefix adds nothing. */
  lemma PrefixedKeyText(prefix: Option<string>, key: string) returns (head: string, colons: string)
    ensures prefix == Some("") ==> PrefixedKey(prefix, key) == key
    ensures prefix != Some("") ==> PrefixedKey(prefix, key) == head + ":" + key
    ensures (if prefix.Some? then prefix.value else "dsar:rate-limit") == head + colons
    ensures (head == "" || head[|head| - 1] != ':') && forall i :: 0 <= i < |colons| ==> colons[i] == ':'
  {
    var resolved := if prefix.Some? then prefix.value else DEFAULT_KEY_PREFIX;
    head := StripColons(resolved);
    colons := ColonsStripped(resolved);
  }

  lemma {:induction false} ColonsStripped(s: string) returns (colons: string)
    ensures s == StripColons(s) + colons && forall i :: 0 <= i < |colons| ==> colons[i] == ':'
    ensures StripColons(s) == "" || StripColons(s)[|StripColons(s)| - 1] != ':'
  {
    colons := "";
    if s != "" && s[|s| - 1] == ':' {
      var more := ColonsStripped(s[..|s| - 1]);
      colons := more + ":";
      assert s == (StripColons(s[..|s| - 1]) + more) + ":";
    }
  }

  lemma PrefixedKeyInjective(prefix: Option<string>, a: string, b: string)
    requires PrefixedKey(prefix, a) == PrefixedKey(prefix, b)
    ensures a == b
  {
    var resolved := if prefix.Some? then prefix.value else DEFAULT_KEY_PREFIX;
    if resolved != "" {
      var head := StripColons(resolved) + ":";
      assert a == (head + a)[|head|..] == (head + b)[|head|..] == b;
    }
  }

  /** A server value with its expiry; a key is gone from its expiry time on. */
  datatype Stored = Stored(count: int, expireAt: Option<int>)

  type Database = map<string, Stored>

  predicate Gone(db: Database, key: string, now: int)
  {
    key !in db || (db[key].expireAt.Some? && db[key].expireAt.value <= now)
  }

  /**
   * What `EVAL` answers: an integer array, something the client did not turn into an array, or an error, which is
   * how the server meets a `SET` whose `PX` time is not positive.
   */
  datatype Reply = Values(values: seq<int>) | NotAnArray | ServerError

  datatype ScriptResult = ScriptResult(reply: Reply, repaired: bool, db: Database)

  /** `PTTL` on a key that exists: -1 without an expiry. */
  function Pttl(db: Database, key: string, now: int): int
    requires key in db
  {
    if db[key].expireAt.Some? then db[key].expireAt.value - now else -1
  }

  /** `PEXPIRE` on a key that exists; a time that is not positive deletes the key. */
  function Expire(db: Database, key: string, windowMs: int, now: int): Database
    requires key in db
  {
    if windowMs <= 0 then db - {key} else db[key := db[key].(expireAt := Some(now + windowMs))]
  }

  /** `INCR`; a missing key counts from zero and does not expire. */
  function Increment(db: Database, key: string): (r: Database)
    ensures key in r
  {
    db[key := if key in db then db[key].(count := db[key].count + 1) else Stored(1, None)]
  }

  /** The fixed-window script; `repaired` tells whether the `ttl < 0` branch ran. */
  function Script(db: Database, key: string, limit: int, windowMs: int, now: int): ScriptResult
  {
    if Gone(db, key, now) then
      if windowMs <= 0 then ScriptResult(ServerError, false, db)
      else
        ScriptResult(Values([1, limit, limit - 1, now + windowMs]), false, db[key := Stored(1, Some(now + windowMs))])
    else
      var count := db[key].count;
      var pttl := Pttl(db, key, now);
      var repaired := pttl < 0;
      var ttl := if repaired then windowMs else pttl;
      var db1 := if repaired then Expire(db, key, windowMs, now) else db;
      if count >= limit then
        ScriptResult(Values([0, limit, 0, now + ttl]), repaired, db1)
      else
        var db2 := Increment(db1, key);
        ScriptResult(Values([1, limit, Max(limit - db2[key].count, 0), now + ttl]), repaired, db2)
  }

  function ReadNumber(values: seq<int>, i: nat, fallback: int): int
  {
    if i < |values| then values[i] else fallback
  }

  /** A value found without an expiry is given one, unless that would delete it at once. */
  lemma ScriptRepairs(db: Database, key: string, limit: int, windowMs: int, now: int)
    requires key in db && db[key].expireAt.None?
    ensures var (s, count) := (Script(db, key, limit, windowMs, now), db[key].count);
            && s.repaired
            && (count >= limit ==> s.reply == Values([0, limit, 0, now + windowMs]))
            && (count < limit && windowMs > 0 ==> s.reply == Values([1, limit, limit - count - 1, now + windowMs]))
            && (count < limit && windowMs <= 0 ==>
                  s.reply == Values([1, limit, if limit >= 1 then limit - 1 else 0, now + windowMs]))
            && (windowMs > 0 ==>
                  s.db == db[key := Stored(if count < limit then count + 1 else count, Some(now + windowMs))])
            && (windowMs <= 0 ==> s.db == if count < limit then db[key := Stored(1, None)] else db - {key})
  {
  }

  datatype StoreError = EvalFailed

  /** The answer of `consume`, which passes a server error on. */
  function ParseReply(reply: Reply, i: Input): Result<Outcome, StoreError>
  {
    match reply
    case ServerError => Err(EvalFailed)
    case NotAnArray => Ok(Outcome(true, i.limit, Max(0, i.limit - 1), i.nowMs + i.windowMs))
    case Values(v) =>
      Ok(Outcome(|v| > 0 && v[0] == 1,
                 ReadNumber(v, 1, i.limit),
                 Max(0, ReadNumber(v, 2, Max(0, i.limit - 1))),
                 ReadNumber(v, 3, i.nowMs + i.windowMs)))
  }

  /** A full answer is taken as it is; what is missing from it is filled in as if the window were new. */
  lemma AnswerIsTaken(v: seq<int>, i: Input)
    ensures |v| >= 4 && v[2] >= 0 ==> ParseReply(Values(v), i) == Ok(Outcome(v[0] == 1, v[1], v[2], v[3]))
    ensures |v| >= 4 && v[2] < 0 ==> ParseReply(Values(v), i) == Ok(Outcome(v[0] == 1, v[1], 0, v[3]))
    ensures var left := if i.limit >= 1 then i.limit - 1 else 0;
            && ParseReply(Values([]), i) == Ok(Outcome(false, i.limit, left, i.nowMs + i.windowMs))
            && ParseReply(NotAnArray, i) == Ok(Outcome(true, i.limit, left, i.nowMs + i.windowMs))
  {
  }

  class RedisStore {
    const prefix: Option<string>
    var db: Database

    constructor (prefix: Option<string>)
      ensures this.prefix == prefix && db == map[]
    {
      this.prefix := prefix;
      db := map[];
    }

    /** `EVAL` runs the script command by command; the server runs it as one step. */
    method Eval(key: string, limit: int, windowMs: int, now: int) returns (reply: Reply)
      modifies this
      ensures reply == Script(old(db), key, limit, windowMs, now).reply
      ensures db == Script(old(db), key, limit, windowMs, now).db
    {
      if Gone(db, key, now) {
        if windowMs <= 0 {
          return ServerError;
        }
        db := db[key := Stored(1, Some(now + windowMs))];
        return Values([1, limit, limit - 1, now + windowMs]);
      }
      var count := db[key].count;
      var ttl := Pttl(db, key, now);
      if ttl < 0 {
        ttl := windowMs;
        db := Expire(db, key, windowMs, now);
      }
      var resetAtMs := now + ttl;
      if count >= limit {
        return Values([0, limit, 0, resetAtMs]);
      }
      db := Increment(db, key);
      reply := Values([1, limit, Max(limit - db[key].count, 0), resetAtMs]);
    }

    method ConsumeOne(i: Input) returns (r: Result<Outcome, StoreError>)
      modifies this
      ensures var s := Script(old(db), PrefixedKey(prefix, i.key), i.limit, i.windowMs, i.nowMs);
              r == ParseReply(s.reply, i) && db == s.db
    {
      var reply := Eval(PrefixedKey(prefix, i.key), i.limit, i.windowMs, i.nowMs);
      r := ParseReply(reply, i);
    }
  }

  // ----- The script refines the in-memory store -----

  function DatabaseAfter(prefix: Option<string>, trace: seq<Input>, n: nat): Database
    requires n <= |trace|
  {
    if n == 0 then map[]
    else
      var i := trace[n - 1];
      Script(DatabaseAfter(prefix, trace, n - 1), PrefixedKey(prefix, i.key), i.limit, i.windowMs, i.nowMs).db
  }

  function ScriptAt(prefix: Option<string>, trace: seq<Input>, n: nat): ScriptResult
    requires n < |trace|
  {
    var i := trace[n];
    Script(DatabaseAfter(prefix, trace, n), PrefixedKey(prefix, i.key), i.limit, i.windowMs, i.nowMs)
  }

  /** At `now` both stores agree on every key: the same live windows, with the same counts and ends. */
  ghost predicate Agree(prefix: Option<string>, ws: Windows, db: Database, now: int)
  {
    forall key :: var stored := PrefixedKey(prefix, key);
      && (Over(ws, key, now) <==> Gone(db, stored, now))
      && (!Over(ws, key, now) ==> db[stored] == Stored(ws[key].count, Some(ws[key].resetAtMs)))
  }

  /** The request opens a window that is over at once. */
  predicate OpensNothing(ws: Windows, i: Input)
  {
    Over(ws, i.key, i.nowMs) && i.windowMs <= 0
  }

  /** One request: the same answer unless the server refuses the window, no repair, and agreement again. */
  lemma RequestKeepsAgreement(prefix: Option<string>, ws: Windows, db: Database, i: Input)
    requires Agree(prefix, ws, db, i.nowMs)
    ensures var s := Script(db, PrefixedKey(prefix, i.key), i.limit, i.windowMs, i.nowMs);
            && ParseReply(s.reply, i) == (if OpensNothing(ws, i) then Err(EvalFailed) else Ok(Consume(ws, i).0))
            && !s.repaired
            && Agree(prefix, Consume(ws, i).1, s.db, i.nowMs)
  {
    hide PrefixedKey;
    var stored := PrefixedKey(prefix, i.key);
    var s := Script(db, stored, i.limit, i.windowMs, i.nowMs);
    var after := Consume(ws, i).1;
    assert Over(ws, i.key, i.nowMs) <==> Gone(db, stored, i.nowMs);
    forall key
      ensures var k := PrefixedKey(prefix, key);
              && (Over(after, key, i.nowMs) <==> Gone(s.db, k, i.nowMs))
              && (!Over(after, key, i.nowMs) ==> s.db[k] == Stored(after[key].count, Some(after[key].resetAtMs)))
    {
      assert Over(ws, key, i.nowMs) <==> Gone(db, PrefixedKey(prefix, key), i.nowMs);
      if key != i.key && PrefixedKey(prefix, key) == stored {
        PrefixedKeyInjective(prefix, key, i.key);
      }
    }
  }

  lemma {:induction false} StoresAgree(prefix: Option<string>, trace: seq<Input>, n: nat, now: int)
    requires TimeOrdered(trace) && n <= |trace|
    requires n > 0 ==> trace[n - 1].nowMs <= now
    ensures Agree(prefix, After(trace, n), DatabaseAfter(prefix, trace, n), now)
  {
    if n > 0 {
      var i := trace[n - 1];
      StoresAgree(prefix, trace, n - 1, i.nowMs);
      RequestKeepsAgreement(prefix, After(trace, n - 1), DatabaseAfter(prefix, trace, n - 1), i);
    }
  }

  /**
   * On every trace in time order, whatever limits, windows and key prefix, the script gives the in-memory store's
   * answer to a request if and only if the request does not open a window that is not positive. Such a request
   * fails on the server, while the memory store lets it through; later answers do not depend on it. The branch that
   * repairs a missing expiry never runs.
   */
  lemma ScriptRefinesMemoryStore(prefix: Option<string>, trace: seq<Input>, n: nat)
    requires TimeOrdered(trace) && n < |trace|
    ensures var answer := ParseReply(ScriptAt(prefix, trace, n).reply, trace[n]);
            && (answer == Ok(OutcomeAt(trace, n)) <==> !OpensNothing(After(trace, n), trace[n]))
            && (answer.Err? ==> OutcomeAt(trace, n).allowed)
    ensures !ScriptAt(prefix, trace, n).repaired
  {
    StoresAgree(prefix, trace, n, trace[n].nowMs);
    RequestKeepsAgreement(prefix, After(trace, n), DatabaseAfter(prefix, trace, n), trace[n]);
  }
}
