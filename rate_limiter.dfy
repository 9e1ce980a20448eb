/** The client-side fixed-window rate limiter (web/src/utils/rateLimiter.ts).
    Browser storage is a map from keys to the records the limiter wrote, and
    the clock (`Date.now()`) is a parameter `now` in milliseconds. */
module RateLimiting {
  import opened Wrappers
  import opened Text

  datatype RateLimitConfig = RateLimitConfig(maxAttempts: nat, windowMs: nat)

  /** Calls counted in the window that ends at `resetAt`. */
  datatype RateLimitRecord = RateLimitRecord(count: int, resetAt: int)

  type Storage = map<string, RateLimitRecord>

  const MINUTE_MS: nat := 60 * 1000
  const HOUR_MS: nat := 60 * MINUTE_MS
  const DAY_MS: nat := 24 * HOUR_MS

  /** `DEFAULT_LIMITS[action]`: None for an action without an entry. */
  function DefaultLimits(action: string): (config: Option<RateLimitConfig>)
    ensures config.Some? ==> config.value.maxAttempts >= 10 && config.value.windowMs >= HOUR_MS
  {
    if action == "plant_log" then Some(RateLimitConfig(1000, DAY_MS))
    else if action == "league_create" then Some(RateLimitConfig(10, HOUR_MS))
    else if action == "challenge_create" then Some(RateLimitConfig(50, HOUR_MS))
    else if action == "bulk_log" then Some(RateLimitConfig(20, HOUR_MS))
    else None
  }

  const PREFIX: string := "ratelimit_"

  /** `getKey(userId, action)` */
  function GetKey(userId: string, action: string): string {
    PREFIX + userId + "_" + action
  }

  /** The prefix `clearUser(userId)` removes. */
  function UserPrefix(userId: string): string {
    PREFIX + userId + "_"
  }

  // ---------------------------------------------------------------------
  // The operations on the stored records
  // ---------------------------------------------------------------------

  /** The record is missing or its window is over. */
  predicate WindowOver(storage: Storage, key: string, now: int) {
    key !in storage || now >= storage[key].resetAt
  }

  /** What `checkLimit(userId, action)` answers at `now`, and the storage after it. */
  function CheckLimitOf(storage: Storage, userId: string, action: string, now: int): (Storage, bool) {
    match DefaultLimits(action)
    case None => (storage, true)
    case Some(config) =>
      var key := GetKey(userId, action);
      if WindowOver(storage, key, now) then
        (storage[key := RateLimitRecord(1, now + config.windowMs)], true)
      else if storage[key].count >= config.maxAttempts then
        (storage, false)
      else
        (storage[key := storage[key].(count := storage[key].count + 1)], true)
  }

  /** What `getRemaining(userId, action)` answers at `now`; None stands for `Infinity`. */
  function RemainingOf(storage: Storage, userId: string, action: string, now: int): Option<nat> {
    match DefaultLimits(action)
    case None => None
    case Some(config) =>
      var key := GetKey(userId, action);
      if WindowOver(storage, key, now) then Some(config.maxAttempts)
      else if config.maxAttempts - storage[key].count < 0 then Some(0)
      else Some(config.maxAttempts - storage[key].count)
  }

  /** What `getResetTime(userId, action)` answers at `now`. */
  function ResetTimeOf(storage: Storage, userId: string, action: string, now: int): nat {
    var key := GetKey(userId, action);
    if key !in storage then 0
    else if storage[key].resetAt - now < 0 then 0
    else storage[key].resetAt - now
  }

  /** The storage after `clearUser(userId)`. */
  function ClearUserOf(storage: Storage, userId: string): Storage {
    map k | k in storage && !StartsWith(k, UserPrefix(userId)) :: storage[k]
  }

  // ---------------------------------------------------------------------
  // The limiter object
  // ---------------------------------------------------------------------

  class RateLimiter {
    var storage: Storage

    constructor(initial: Storage)
      ensures storage == initial
    {
      storage := initial;
    }

    /** `checkLimit(userId, action)`: true when the call is allowed. */
    method CheckLimit(userId: string, action: string, now: int) returns (allowed: bool)
      modifies this
      ensures (storage, allowed) == CheckLimitOf(old(storage), userId, action, now)
    {
      var config := DefaultLimits(action);
      if config.None? {
        return true;
      }
      var key := GetKey(userId, action);
      if key !in storage || now >= storage[key].resetAt {
        storage := storage[key := RateLimitRecord(1, now + config.value.windowMs)];
        return true;
      }
      var record := storage[key];
      if record.count >= config.value.maxAttempts {
        return false;
      }
      record := record.(count := record.count + 1);
      storage := storage[key := record];
      return true;
    }

    /** `getRemaining(userId, action)` */
    method GetRemaining(userId: string, action: string, now: int) returns (remaining: Option<nat>)
      ensures remaining == RemainingOf(storage, userId, action, now)
    {
      var config := DefaultLimits(action);
      if config.None? {
        return None;
      }
      var key := GetKey(userId, action);
      if key !in storage || now >= storage[key].resetAt {
        return Some(config.value.maxAttempts);
      }
      var left := config.value.maxAttempts - storage[key].count;
      remaining := if left < 0 then Some(0) else Some(left);
    }

    /** `getResetTime(userId, action)`: milliseconds until the window ends. */
    method GetResetTime(userId: string, action: string, now: int) returns (ms: nat)
      ensures ms == ResetTimeOf(storage, userId, action, now)
    {
      var key := GetKey(userId, action);
      if key !in storage {
        return 0;
      }
      var left := storage[key].resetAt - now;
      ms := if left < 0 then 0 else left;
    }

    /** `reset(userId, action)`: removes that one record. */
    method Reset(userId: string, action: string)
      modifies this
      ensures storage == old(storage) - {GetKey(userId, action)}
    {
      storage := storage - {GetKey(userId, action)};
    }

    /** `clearUser(userId)`: the `forEach` over the stored keys removing those
        that start with the user's prefix. */
    method ClearUser(userId: string)
      modifies this
      ensures storage == ClearUserOf(old(storage), userId)
    {
      var userPrefix := UserPrefix(userId);
      var keys := storage.Keys;
      while keys != {}
        invariant keys <= old(storage).Keys
        invariant forall k :: k in storage <==>
          k in old(storage) && (k in keys || !StartsWith(k, userPrefix))
        invariant forall k :: k in storage ==> storage[k] == old(storage)[k]
        decreases keys
      {
        var key :| key in keys;
        if StartsWith(key, userPrefix) {
          storage := storage - {key};
        }
        keys := keys - {key};
      }
      assert storage == ClearUserOf(old(storage), userId);
    }
  }

  // ---------------------------------------------------------------------
  // What checkLimit does
  // ---------------------------------------------------------------------

  /** The four cases of `checkLimit`: an action without limits is allowed and
      stores nothing; a missing or expired record starts a new window with
      count 1; a full window refuses and keeps the record; otherwise the count
      rises by one. No other key is touched. */
  lemma CheckLimitCases(storage: Storage, userId: string, action: string, now: int)
    ensures var key := GetKey(userId, action);
      var (after, allowed) := CheckLimitOf(storage, userId, action, now);
      && (DefaultLimits(action).None? ==> allowed && after == storage)
      && (DefaultLimits(action).Some? && WindowOver(storage, key, now) ==>
            allowed && after == storage[key := RateLimitRecord(1, now + DefaultLimits(action).value.windowMs)])
      && (DefaultLimits(action).Some? && !WindowOver(storage, key, now)
            && storage[key].count >= DefaultLimits(action).value.maxAttempts ==>
            !allowed && after == storage)
      && (DefaultLimits(action).Some? && !WindowOver(storage, key, now)
            && storage[key].count < DefaultLimits(action).value.maxAttempts ==>
            allowed && key in after
            && after[key] == RateLimitRecord(storage[key].count + 1, storage[key].resetAt))
      && (forall k :: k != key ==> (k in after <==> k in storage) && (k in after ==> after[k] == storage[k]))
  {
  }

  /** `getRemaining` predicts `checkLimit`: for a limited action the next call
      is allowed exactly when some attempts remain. */
  lemma RemainingPredictsCheck(storage: Storage, userId: string, action: string, now: int)
    requires DefaultLimits(action).Some?
    ensures RemainingOf(storage, userId, action, now).Some?
    ensures CheckLimitOf(storage, userId, action, now).1 <==> RemainingOf(storage, userId, action, now).value > 0
  {
  }

  /** After `reset`, the next call opens a new window. */
  lemma ResetOpensWindow(storage: Storage, userId: string, action: string, now: int)
    requires DefaultLimits(action).Some?
    ensures var cleared := storage - {GetKey(userId, action)};
      && RemainingOf(cleared, userId, action, now) == Some(DefaultLimits(action).value.maxAttempts)
      && ResetTimeOf(cleared, userId, action, now) == 0
      && CheckLimitOf(cleared, userId, action, now).1
  {
  }

  // ---------------------------------------------------------------------
  // The stored counts stay within the limits
  // ---------------------------------------------------------------------

  /** Distinct configured actions never share a key: the key determines the
      action, and then the user. */
  lemma KeyDeterminesAction(u1: string, a1: string, u2: string, a2: string)
    requires DefaultLimits(a1).Some? && DefaultLimits(a2).Some?
    requires GetKey(u1, a1) == GetKey(u2, a2)
    ensures a1 == a2 && u1 == u2
  {
    var x1, x2 := UserPrefix(u1), UserPrefix(u2);
    assert x1 + a1 == x2 + a2;
    SplitOfConcat(x1, a1, x2, a2);
    SplitOfConcat(x2, a2, x1, a1);
    NoActionEndsWithAnother(a1, a2);
    NoActionEndsWithAnother(a2, a1);
    assert |a1| == |a2|;
    assert x1 == (x1 + a1)[..|x1|] == (x2 + a2)[..|x2|] == x2;
    assert u1 == x1[|PREFIX|..|x1| - 1] && u2 == x2[|PREFIX|..|x2| - 1];
  }

  /** When `x1 + s1 == x2 + s2` and `s1` is the shorter tail, `s1` ends `s2`
      and the character before it in `s2` is the last one of `x1`. */
  lemma SplitOfConcat(x1: string, s1: string, x2: string, s2: string)
    requires x1 + s1 == x2 + s2 && x1 != []
    ensures |s1| <= |s2| ==> s2[|s2| - |s1|..] == s1
    ensures |s1| < |s2| ==> s2[|s2| - |s1| - 1] == x1[|x1| - 1]
  {
    var k := x1 + s1;
    if |s1| <= |s2| {
      assert s2[|s2| - |s1|..] == k[|k| - |s1|..] == s1;
    }
    if |s1| < |s2| {
      assert s2[|s2| - |s1| - 1] == k[|k| - |s1| - 1] == x1[|x1| - 1];
    }
  }

  /** No configured action ends with another configured action after an
      underscore: at the place the underscore would be, there is a letter. */
  lemma NoActionEndsWithAnother(long: string, short: string)
    requires DefaultLimits(long).Some? && DefaultLimits(short).Some?
    ensures |short| < |long| ==> long[|long| - |short| - 1] != '_'
  {
  }

  /** Every stored record of a limited action counts between 1 and its maximum. */
  ghost predicate CountsWithinLimits(storage: Storage) {
    forall userId, action :: GetKey(userId, action) in storage && DefaultLimits(action).Some? ==>
      1 <= storage[GetKey(userId, action)].count <= DefaultLimits(action).value.maxAttempts
  }

  /** `checkLimit` keeps every stored count between 1 and its maximum. */
  lemma CheckLimitKeepsCounts(storage: Storage, userId: string, action: string, now: int)
    requires CountsWithinLimits(storage)
    ensures CountsWithinLimits(CheckLimitOf(storage, userId, action, now).0)
  {
    var after := CheckLimitOf(storage, userId, action, now).0;
    forall u, a | GetKey(u, a) in after && DefaultLimits(a).Some?
      ensures 1 <= after[GetKey(u, a)].count <= DefaultLimits(a).value.maxAttempts
    {
      if DefaultLimits(action).Some? && GetKey(u, a) == GetKey(userId, action) {
        KeyDeterminesAction(u, a, userId, action);
      }
    }
  }

  /** Removing records, as `reset` and `clearUser` do, keeps the counts in range. */
  lemma RemovalKeepsCounts(storage: Storage, userId: string, action: string)
    requires CountsWithinLimits(storage)
    ensures CountsWithinLimits(storage - {GetKey(userId, action)})
    ensures CountsWithinLimits(ClearUserOf(storage, userId))
  {
  }

  // ---------------------------------------------------------------------
  // At most maxAttempts allowed calls per window
  // ---------------------------------------------------------------------

  /** Calls `checkLimit(userId, action)` at the times `nows`, in order: how many
      were allowed, and the storage afterwards. */
  function RunChecks(storage: Storage, userId: string, action: string, nows: seq<int>): (nat, Storage)
    decreases |nows|
  {
    if nows == [] then (0, storage)
    else
      var (next, allowed) := CheckLimitOf(storage, userId, action, nows[0]);
      var rest := RunChecks(next, userId, action, nows[1..]);
      ((if allowed then 1 else 0) + rest.0, rest.1)
  }

  /** Inside an open window holding `count` calls, at most `maxAttempts - count`
      more are allowed. */
  lemma {:induction false} InsideWindow(storage: Storage, userId: string, action: string, nows: seq<int>)
    requires DefaultLimits(action).Some?
    requires GetKey(userId, action) in storage
    requires 1 <= storage[GetKey(userId, action)].count <= DefaultLimits(action).value.maxAttempts
    requires forall i :: 0 <= i < |nows| ==> nows[i] < storage[GetKey(userId, action)].resetAt
    ensures RunChecks(storage, userId, action, nows).0
              <= DefaultLimits(action).value.maxAttempts - storage[GetKey(userId, action)].count
  {
    if nows != [] {
      var next := CheckLimitOf(storage, userId, action, nows[0]).0;
      assert forall i :: 0 <= i < |nows[1..]| ==> nows[1..][i] == nows[i + 1];
      InsideWindow(next, userId, action, nows[1..]);
    }
  }

  /** However the storage looks, the calls made within `windowMs` of a first
      call that opens a new window are allowed at most `maxAttempts` times. */
  lemma AtMostMaxAttemptsPerWindow(storage: Storage, userId: string, action: string, nows: seq<int>)
    requires DefaultLimits(action).Some?
    requires nows != [] && WindowOver(storage, GetKey(userId, action), nows[0])
    requires forall i :: 0 <= i < |nows| ==> nows[i] < nows[0] + DefaultLimits(action).value.windowMs
    ensures RunChecks(storage, userId, action, nows).0 <= DefaultLimits(action).value.maxAttempts
  {
    var next := CheckLimitOf(storage, userId, action, nows[0]).0;
    assert forall i :: 0 <= i < |nows[1..]| ==> nows[1..][i] == nows[i + 1];
    InsideWindow(next, userId, action, nows[1..]);
  }

  // ---------------------------------------------------------------------
  // What reset and clearUser remove
  // ---------------------------------------------------------------------

  /** `clearUser(userId)` keeps a record exactly when its key does not start
      with the user's prefix; so it removes every record of the user, and also
      those of any user whose id is `userId + "_"` followed by more text. */
  lemma ClearUserKeys(storage: Storage, userId: string, other: string, action: string)
    ensures GetKey(other, action) in ClearUserOf(storage, userId) <==>
      GetKey(other, action) in storage && !StartsWith(other + "_" + action, userId + "_")
    ensures GetKey(userId, action) !in ClearUserOf(storage, userId)
    ensures GetKey(userId + "_" + other, action) !in ClearUserOf(storage, userId)
  {
    var key := GetKey(other, action);
    assert key == PREFIX + (other + "_" + action);
    assert UserPrefix(userId) == PREFIX + (userId + "_");
    PrefixedStartsWith(PREFIX, other + "_" + action, userId + "_");
    assert GetKey(userId, action) == UserPrefix(userId) + action;
    assert GetKey(userId + "_" + other, action) == UserPrefix(userId) + (other + "_" + action);
  }

  lemma PrefixedStartsWith(p: string, s: string, t: string)
    ensures StartsWith(p + s, p + t) <==> StartsWith(s, t)
  {
    if StartsWith(s, t) {
      assert (p + s)[..|p + t|] == p + s[..|t|];
    }
    if StartsWith(p + s, p + t) {
      assert s[..|t|] == (p + s)[..|p + t|][|p|..];
    }
  }

  // ---------------------------------------------------------------------
  // formatTimeRemaining
  // ---------------------------------------------------------------------

  /** `formatTimeRemaining(ms)`: whole hours and the whole minutes left over. */
  function FormatTimeRemaining(ms: nat): string {
    ShowDuration(ms / HOUR_MS, (ms % HOUR_MS) / MINUTE_MS)
  }

  /** `${hours}h ${minutes}m`, or `${minutes}m` when there are no hours. */
  function ShowDuration(hours: nat, minutes: nat): string {
    if hours > 0 then NatToDec(hours) + "h " + NatToDec(minutes) + "m"
    else NatToDec(minutes) + "m"
  }

  /** The hours and minutes shown are `ms` rounded down to a whole minute, and
      the minutes are below 60. */
  lemma TimeRemainingRoundsDown(ms: nat)
    ensures var hours := ms / HOUR_MS;
      var minutes := (ms % HOUR_MS) / MINUTE_MS;
      && minutes < 60
      && hours * HOUR_MS + minutes * MINUTE_MS <= ms < hours * HOUR_MS + minutes * MINUTE_MS + MINUTE_MS
  {
  }

  /** The hours appear exactly when there is at least one, and reading the
      text back gives the numbers shown. */
  lemma FormatTimeRemainingReadsBack(ms: nat)
    ensures var hours := ms / HOUR_MS;
      var minutes := (ms % HOUR_MS) / MINUTE_MS;
      var text := FormatTimeRemaining(ms);
      && ('h' in text <==> hours > 0)
      && text[|text| - 1] == 'm'
      && ParseInt(text) == Some(if hours > 0 then hours else minutes)
      && (hours > 0 ==> ParseInt(text[|NatToDec(hours)| + 2..]) == Some(minutes))
  {
    ShowDurationHours(ms / HOUR_MS, (ms % HOUR_MS) / MINUTE_MS);
    ShowDurationParses(ms / HOUR_MS, (ms % HOUR_MS) / MINUTE_MS);
  }

  lemma ShowDurationHours(hours: nat, minutes: nat)
    ensures 'h' in ShowDuration(hours, minutes) <==> hours > 0
    ensures var text := ShowDuration(hours, minutes); text[|text| - 1] == 'm'
  {
    NoLetterInNumber(hours, 'h');
    NoLetterInNumber(minutes, 'h');
    if hours > 0 {
      var text := ShowDuration(hours, minutes);
      assert text[|NatToDec(hours)|] == 'h';
    }
  }

  lemma ShowDurationParses(hours: nat, minutes: nat)
    ensures var text := ShowDuration(hours, minutes);
      && ParseInt(text) == Some(if hours > 0 then hours else minutes)
      && (hours > 0 ==> ParseInt(text[|NatToDec(hours)| + 2..]) == Some(minutes))
  {
    ParseIntOfNatToDec(minutes, "m");
    if hours > 0 {
      var text := ShowDuration(hours, minutes);
      assert text == NatToDec(hours) + ("h " + NatToDec(minutes) + "m");
      ParseIntOfNatToDec(hours, "h " + NatToDec(minutes) + "m");
      assert text[|NatToDec(hours)| + 2..] == NatToDec(minutes) + "m";
    }
  }

  lemma NoLetterInNumber(n: nat, c: char)
    requires !IsDigit(c)
    ensures c !in NatToDec(n)
  {
    NatToDecDigits(n);
  }
}
