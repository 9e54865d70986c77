/** Replay protection of the storage node's write API: the nonce cache and the checks around it. */
module Auth {
  import opened Bytes
  import opened Common
  import opened Digits

  const SIGNATURE_VALIDITY_SECS: nat := 300
  const NONCE_TTL_SECS: nat := SIGNATURE_VALIDITY_SECS
  const MAX_CLOCK_AHEAD_SECS: nat := 30

  /** `saturating_sub` on u64. */
  function Sub(a: nat, b: nat): nat { if a < b then 0 else a - b }

  /** When each nonce was inserted. */
  type Cache = map<string, nat>

  predicate Held(cache: Cache, ttl: nat, nonce: string, now: nat)
  {
    nonce in cache && Sub(now, cache[nonce]) <= ttl
  }

  function Collected(cache: Cache, ttl: nat, now: nat): Cache
  {
    map n | n in cache && Sub(now, cache[n]) <= ttl :: cache[n]
  }

  datatype AuthError = ExpiredTimestamp | NonceReused | MalformedRequest | PayloadHashMismatch | InvalidSignature

  predicate Fresh(timestamp: nat, now: nat)
  {
    Sub(now, timestamp) <= SIGNATURE_VALIDITY_SECS && Sub(timestamp, now) <= MAX_CLOCK_AHEAD_SECS
  }

  // ----------------------------------------------------------------- requests --

  type u64 = x: int | 0 <= x < 0x1_0000_0000_0000_0000

  datatype SignedRequest = SignedRequest(accountId: string, timestamp: u64, nonce: string, payloadHash: string, signature: string)

  function StripHexPrefix(s: string): string
  {
    if "0x" <= s || "0X" <= s then s[2..] else s
  }

  /** `hex::decode`: an even number of hex digits, in either case. */
  function HexDecode(s: string): Option<seq<byte>>
  {
    if |s| % 2 != 0 || exists i :: 0 <= i < |s| && DigitOf(s[i]) == 16 then None
    else Some(seq<byte>(|s| / 2, i requires 0 <= i < |s| / 2 => DigitOf(s[2 * i]) * 16 + DigitOf(s[2 * i + 1])))
  }

  /** The `get_..._bytes` functions, for a field of n bytes. */
  function GetBytes(s: string, n: nat): (r: Result<seq<byte>, AuthError>)
    ensures r.Ok? ==> |r.value| == n
  {
    match HexDecode(StripHexPrefix(s))
    case None => Err(MalformedRequest)
    case Some(bytes) => if |bytes| == n then Ok(bytes) else Err(MalformedRequest)
  }

  /** Sr25519 verification of public key, message and signature. */
  type Verifier = (seq<byte>, seq<byte>, seq<byte>) -> bool

  /** What is signed: account, timestamp, nonce and payload hash; None when a field does not decode. */
  function Message(r: SignedRequest): Option<seq<byte>>
  {
    var account, nonce, hash := GetBytes(r.accountId, 32), GetBytes(r.nonce, 16), GetBytes(r.payloadHash, 32);
    if account.Err? || nonce.Err? || hash.Err? then None
    else Some(account.value + LeBytes(r.timestamp, 8) + nonce.value + hash.value)
  }

  /** The checks behind the nonce cache: payload hash, then signature. */
  function SignedCheck(r: SignedRequest, expectedHash: seq<byte>, verify: Verifier): Result<(), AuthError>
  {
    var hash := GetBytes(r.payloadHash, 32);
    if hash.Err? then Err(MalformedRequest)
    else if hash.value != expectedHash then Err(PayloadHashMismatch)
    else if Message(r) == None || GetBytes(r.signature, 64).Err? then Err(MalformedRequest)
    else if verify(GetBytes(r.accountId, 32).value, Message(r).value, GetBytes(r.signature, 64).value) then Ok(())
    else Err(InvalidSignature)
  }

  class NonceCache {
    var cache: Cache
    const ttlSecs: nat

    constructor (ttl: nat)
      ensures cache == map[] && ttlSecs == ttl
    {
      cache, ttlSecs := map[], ttl;
    }

    method CheckAndInsert(nonce: string, now: nat) returns (unused: bool)
      modifies this`cache
      ensures unused == Accepts(old(cache), ttlSecs, Check(nonce, now))
      ensures cache == Next(old(cache), ttlSecs, Check(nonce, now))
    {
      if nonce in cache {
        if Sub(now, cache[nonce]) <= ttlSecs {
          return false;
        }
      }
      cache := cache[nonce := now];
      return true;
    }

    method RunGc(now: nat)
      modifies this`cache
      ensures cache == Next(old(cache), ttlSecs, Gc(now))
    {
      cache := map n | n in cache && Sub(now, cache[n]) <= ttlSecs :: cache[n];
    }

    /** `validate_request`, which reads the clock twice. */
    method ValidateRequest(request: SignedRequest, expectedHash: seq<byte>, verify: Verifier, now: nat, nowAtInsert: nat)
      returns (r: Result<(), AuthError>)
      modifies this`cache
      ensures r == Outcome(old(cache), ttlSecs, verify, Request(request, expectedHash, now, nowAtInsert))
      ensures cache == Next(old(cache), ttlSecs, OpOf(Request(request, expectedHash, now, nowAtInsert)))
    {
      if Sub(now, request.timestamp) > SIGNATURE_VALIDITY_SECS {
        return Err(ExpiredTimestamp);
      }
      if Sub(request.timestamp, now) > MAX_CLOCK_AHEAD_SECS {
        return Err(ExpiredTimestamp);
      }
      var unused := CheckAndInsert(request.nonce, nowAtInsert);
      if !unused {
        return Err(NonceReused);
      }
      hide GetBytes;
      var providedHash :- GetBytes(request.payloadHash, 32);
      if providedHash != expectedHash {
        return Err(PayloadHashMismatch);
      }
      var publicKey :- GetBytes(request.accountId, 32);
      var signature :- GetBytes(request.signature, 64);
      var message := publicKey;
      message := message + LeBytes(request.timestamp, 8);
      var nonce :- GetBytes(request.nonce, 16);
      message := message + nonce;
      message := message + providedHash;
      if !verify(publicKey, message, signature) {
        return Err(InvalidSignature);
      }
      return Ok(());
    }
  }

  // --------------------------------------------------------------------- runs --

  /** What a call does to the cache; Idle when it ends before it gets there. */
  datatype Op = Check(nonce: string, now: nat) | Gc(now: nat) | Idle(now: nat)

  predicate Accepts(cache: Cache, ttl: nat, op: Op)
  {
    op.Check? && !Held(cache, ttl, op.nonce, op.now)
  }

  function Next(cache: Cache, ttl: nat, op: Op): Cache
  {
    match op
    case Check(nonce, now) => if Held(cache, ttl, nonce, now) then cache else cache[nonce := now]
    case Gc(now) => Collected(cache, ttl, now)
    case Idle(_) => cache
  }

  /** The cache after a run that began empty. */
  ghost function After(ttl: nat, ops: seq<Op>): Cache
  {
    if ops == [] then map[] else Next(After(ttl, ops[..|ops| - 1]), ttl, ops[|ops| - 1])
  }

  ghost predicate ClockRuns(ops: seq<Op>)
  {
    forall i, j :: 0 <= i <= j < |ops| ==> ops[i].now <= ops[j].now
  }

  /** The i-th operation of a run is an accepted use of its nonce. */
  ghost predicate AcceptedAt(ttl: nat, ops: seq<Op>, i: nat)
    requires i < |ops|
  {
    Accepts(After(ttl, ops[..i]), ttl, ops[i])
  }

  /** A recorded nonce stays in the cache until more than ttl seconds have passed. */
  lemma {:induction false} StaysRecorded(ttl: nat, ops: seq<Op>, nonce: string, i: nat, k: nat)
    requires ClockRuns(ops) && i <= k <= |ops| && nonce in After(ttl, ops[..i])
    ensures var t, cache := After(ttl, ops[..i])[nonce], After(ttl, ops[..k]);
      (nonce in cache && t <= cache[nonce]) || (i < k && ops[k - 1].now - t > ttl)
    decreases k
  {
    if i < k {
      StaysRecorded(ttl, ops, nonce, i, k - 1);
      assert ops[..k][..k - 1] == ops[..k - 1];
      assert i < k - 1 ==> ops[k - 2].now <= ops[k - 1].now;
    }
  }

  /** After a use at time t the nonce stays in the cache until more than ttl seconds have passed. */
  lemma UseIsRemembered(ttl: nat, ops: seq<Op>, i: nat, k: nat)
    requires ClockRuns(ops) && i < k <= |ops| && AcceptedAt(ttl, ops, i)
    ensures var cache, t, last := After(ttl, ops[..k]), ops[i].now, ops[k - 1].now;
      (ops[i].nonce in cache && t <= cache[ops[i].nonce]) || last - t > ttl
  {
    var used := ops[..i + 1];
    assert used[..|used| - 1] == ops[..i] && used[|used| - 1] == ops[i];
    assert After(ttl, used) == Next(After(ttl, ops[..i]), ttl, ops[i]);
    StaysRecorded(ttl, ops, ops[i].nonce, i + 1, k);
  }

  /** Two accepted uses of one nonce string are more than ttl seconds apart, whatever happens in between. */
  lemma UsesAreSpaced(ttl: nat, ops: seq<Op>, i: nat, j: nat)
    requires ClockRuns(ops) && i < j < |ops|
    requires AcceptedAt(ttl, ops, i) && AcceptedAt(ttl, ops, j) && ops[i].nonce == ops[j].nonce
    ensures ops[j].now - ops[i].now > ttl
  {
    UseIsRemembered(ttl, ops, i, j);
  }

  /** The answers given to the checks of a run, in order. */
  ghost function Answers(ttl: nat, ops: seq<Op>): seq<bool>
  {
    if ops == [] then []
    else
      var front, last := ops[..|ops| - 1], ops[|ops| - 1];
      Answers(ttl, front) + if last.Check? then [Accepts(After(ttl, front), ttl, last)] else []
  }

  ghost function WithoutGc(ops: seq<Op>): seq<Op>
  {
    if ops == [] then []
    else
      var front, last := ops[..|ops| - 1], ops[|ops| - 1];
      WithoutGc(front) + if last.Check? then [last] else []
  }

  /** Two caches hold the same nonces, since the same time, as seen from now on. */
  ghost predicate Alike(c: Cache, d: Cache, ttl: nat, now: nat)
  {
    forall n :: (Held(c, ttl, n, now) || Held(d, ttl, n, now)) ==> n in c && n in d && c[n] == d[n]
  }

  lemma {:induction false} GcLeavesAlike(ttl: nat, ops: seq<Op>, now: nat)
    requires ClockRuns(ops) && (ops != [] ==> ops[|ops| - 1].now <= now)
    ensures Alike(After(ttl, ops), After(ttl, WithoutGc(ops)), ttl, now)
  {
    if ops != [] {
      hide Alike, Next;
      var front, last := ops[..|ops| - 1], ops[|ops| - 1];
      GcLeavesAlike(ttl, front, last.now);
      var c, d := After(ttl, front), After(ttl, WithoutGc(front));
      if last.Check? {
        assert WithoutGc(ops)[..|WithoutGc(front)|] == WithoutGc(front);
        CheckKeepsAlike(c, d, ttl, last, now);
      } else {
        assert WithoutGc(ops) == WithoutGc(front);
        GcKeepsAlike(c, d, ttl, last, now);
      }
    } else {
      SameIsAlike(ttl, now);
    }
  }

  lemma SameIsAlike(ttl: nat, now: nat)
    ensures Alike(map[], map[], ttl, now)
  {
  }

  lemma CheckKeepsAlike(c: Cache, d: Cache, ttl: nat, op: Op, now: nat)
    requires op.Check? && op.now <= now && Alike(c, d, ttl, op.now)
    ensures Alike(Next(c, ttl, op), Next(d, ttl, op), ttl, now)
  {
  }

  lemma GcKeepsAlike(c: Cache, d: Cache, ttl: nat, op: Op, now: nat)
    requires !op.Check? && op.now <= now && Alike(c, d, ttl, op.now)
    ensures Alike(Next(c, ttl, op), d, ttl, now)
  {
  }

  /** Collecting garbage at any point of a run changes no answer. */
  lemma {:induction false} GcIsInvisible(ttl: nat, ops: seq<Op>)
    requires ClockRuns(ops)
    ensures Answers(ttl, ops) == Answers(ttl, WithoutGc(ops))
  {
    if ops != [] {
      var front, last := ops[..|ops| - 1], ops[|ops| - 1];
      GcIsInvisible(ttl, front);
      GcLeavesAlike(ttl, front, last.now);
      if last.Check? {
        assert WithoutGc(ops)[..|WithoutGc(front)|] == WithoutGc(front);
      } else {
        assert WithoutGc(ops) == WithoutGc(front);
      }
    }
  }

  /** Collecting leaves no entry older than the lifetime, and loses no other. */
  lemma CollectedExactly(ttl: nat, ops: seq<Op>, now: nat)
    ensures var before, after := After(ttl, ops), After(ttl, ops + [Gc(now)]);
      && (forall n :: n in after ==> n in before && after[n] == before[n])
      && (forall n :: n in before ==> (n in after <==> now - before[n] <= ttl))
  {
    assert (ops + [Gc(now)])[..|ops|] == ops;
  }

  // ------------------------------------------------------------------- replay --

  /** A call of the write API: a request with the hash of its body, the reading its timestamp is checked against and the
      reading at insertion; or a collection. */
  datatype Call =
    | Request(request: SignedRequest, payloadHash: seq<byte>, seen: nat, now: nat)
    | Collect(now: nat)

  function OpOf(c: Call): (op: Op)
    ensures op.now == c.now
  {
    match c
    case Request(r, _, seen, now) => if Fresh(r.timestamp, seen) then Check(r.nonce, now) else Idle(now)
    case Collect(now) => Gc(now)
  }

  function Outcome(cache: Cache, ttl: nat, verify: Verifier, c: Call): Result<(), AuthError>
    requires c.Request?
  {
    if !Fresh(c.request.timestamp, c.seen) then Err(ExpiredTimestamp)
    else if Held(cache, ttl, c.request.nonce, c.now) then Err(NonceReused)
    else SignedCheck(c.request, c.payloadHash, verify)
  }

  ghost function Ops(calls: seq<Call>): (ops: seq<Op>)
    ensures |ops| == |calls| && forall i :: 0 <= i < |calls| ==> ops[i] == OpOf(calls[i])
  {
    seq(|calls|, i requires 0 <= i < |calls| => OpOf(calls[i]))
  }

  /** The node's cache after a run of calls. */
  ghost function Cached(calls: seq<Call>): Cache
  {
    After(NONCE_TTL_SECS, Ops(calls))
  }

  /** The clock never runs backwards, and at most `gap` seconds pass between the two readings of a call. */
  ghost predicate Timed(calls: seq<Call>, gap: nat)
  {
    && (forall i, j :: 0 <= i <= j < |calls| ==> calls[i].now <= calls[j].now)
    && (forall i :: 0 <= i < |calls| && calls[i].Request? ==> calls[i].seen <= calls[i].now <= calls[i].seen + gap)
  }

  ghost predicate Accepted(calls: seq<Call>, verify: Verifier, i: nat)
    requires i < |calls|
  {
    calls[i].Request? && Outcome(Cached(calls[..i]), NONCE_TTL_SECS, verify, calls[i]) == Ok(())
  }

  /** What `validate_request` answers, case by case: a request that is too old or too far ahead is expired; then a nonce
      used within the last 300 seconds is refused; then the payload hash must decode, and match; then all other fields
      must decode; then the signature over account, little-endian timestamp, nonce and hash decides. */
  lemma OutcomeExactly(cache: Cache, verify: Verifier, c: Call)
    requires c.Request?
    ensures var r, outcome := c.request, Outcome(cache, 300, verify, c);
      var account, nonce := GetBytes(r.accountId, 32), GetBytes(r.nonce, 16);
      var hash, signature := GetBytes(r.payloadHash, 32), GetBytes(r.signature, 64);
      var timely := c.seen - r.timestamp <= 300 && r.timestamp - c.seen <= 30;
      var used := r.nonce in cache && c.now - cache[r.nonce] <= 300;
      var decoded := hash.Ok? && account.Ok? && signature.Ok? && nonce.Ok?;
      && (outcome == Err(ExpiredTimestamp) <==> !timely)
      && (outcome == Err(NonceReused) <==> timely && used)
      && (outcome == Err(PayloadHashMismatch) <==> timely && !used && hash.Ok? && hash.value != c.payloadHash)
      && (outcome == Err(MalformedRequest) <==>
           timely && !used && !decoded && (hash.Ok? ==> hash.value == c.payloadHash))
      && (outcome == Err(InvalidSignature) <==>
           timely && !used && decoded && hash.value == c.payloadHash &&
           !verify(account.value, account.value + LeBytes(r.timestamp, 8) + nonce.value + hash.value, signature.value))
      && (outcome == Ok(()) <==>
           timely && !used && decoded && hash.value == c.payloadHash &&
           verify(account.value, account.value + LeBytes(r.timestamp, 8) + nonce.value + hash.value, signature.value))
  {
    hide GetBytes, LeBytes;
  }

  /** Over any run the i-th call is accepted exactly when it is a request whose timestamp is at most 300 seconds old and
      at most 30 ahead, whose nonce string was not used within the last 300 seconds, whose payload hash is that of the
      body, and whose signature verifies over account, timestamp, nonce bytes and hash. */
  lemma AcceptedExactly(calls: seq<Call>, verify: Verifier, i: nat)
    requires i < |calls| && calls[i].Request?
    ensures var c, cache := calls[i], Cached(calls[..i]);
      var r := c.request;
      var account, nonce := GetBytes(r.accountId, 32), GetBytes(r.nonce, 16);
      var hash, signature := GetBytes(r.payloadHash, 32), GetBytes(r.signature, 64);
      Accepted(calls, verify, i) <==>
      && c.seen - r.timestamp <= 300 && r.timestamp - c.seen <= 30
      && !(r.nonce in cache && c.now - cache[r.nonce] <= 300)
      && hash == Ok(c.payloadHash) && account.Ok? && nonce.Ok? && signature.Ok?
      && verify(account.value, account.value + LeBytes(r.timestamp, 8) + nonce.value + hash.value, signature.value)
  {
    hide GetBytes, LeBytes, Outcome, Cached;
    OutcomeExactly(Cached(calls[..i]), verify, calls[i]);
  }

  lemma AcceptedHasMessage(calls: seq<Call>, verify: Verifier, i: nat)
    requires i < |calls| && Accepted(calls, verify, i)
    ensures var r := calls[i].request;
      Message(r).Some? && GetBytes(r.nonce, 16).Ok? && Fresh(r.timestamp, calls[i].seen)
    ensures OpOf(calls[i]) == Check(calls[i].request.nonce, calls[i].now)
    ensures Accepts(Cached(calls[..i]), NONCE_TTL_SECS, OpOf(calls[i]))
  {
    hide GetBytes;
  }

  lemma CachedStep(calls: seq<Call>, i: nat)
    requires i < |calls|
    ensures Cached(calls[..i + 1]) == Next(Cached(calls[..i]), NONCE_TTL_SECS, OpOf(calls[i]))
  {
    hide Next;
    assert Ops(calls[..i + 1])[..i] == Ops(calls[..i]);
  }

  /** The signed bytes determine timestamp and nonce bytes. */
  lemma MessageInjective(r: SignedRequest, s: SignedRequest)
    requires Message(r) == Message(s) && Message(r).Some?
    ensures r.timestamp == s.timestamp && GetBytes(r.nonce, 16) == GetBytes(s.nonce, 16)
  {
    hide GetBytes, LeBytes;
    var m := Message(r).value;
    assert m[32..40] == LeBytes(r.timestamp, 8) == LeBytes(s.timestamp, 8);
    assert m[40..56] == GetBytes(r.nonce, 16).value == GetBytes(s.nonce, 16).value;
    TimestampFits(r.timestamp);
    TimestampFits(s.timestamp);
  }

  lemma TimestampFits(t: u64)
    ensures LeValue(LeBytes(t, 8)) == t
  {
    PowAdd(256, 4, 4);
    assert Pow(256, 4) == 0x1_0000_0000;
    LeBytesRoundTrip(t, 8);
  }

  /** Another spelling of the nonce bytes is the same signed message, with the same signature. */
  lemma Respelled(r: SignedRequest, t: string, hash: seq<byte>, verify: Verifier)
    requires GetBytes(t, 16) == GetBytes(r.nonce, 16)
    ensures Message(r.(nonce := t)) == Message(r) && SignedCheck(r.(nonce := t), hash, verify) == SignedCheck(r, hash, verify)
  {
  }

  /** Two acceptances of one signed message under one spelling: the timestamp was less than `gap` behind the clock at the
      first. */
  lemma NoReplay(calls: seq<Call>, gap: nat, verify: Verifier, i: nat, j: nat)
    requires Timed(calls, gap) && i < j < |calls| && Accepted(calls, verify, i) && Accepted(calls, verify, j)
    requires Message(calls[i].request) == Message(calls[j].request) && calls[i].request.nonce == calls[j].request.nonce
    ensures calls[i].request.timestamp + gap > calls[i].now
  {
    hide Message, Outcome, Held;
    AcceptedHasMessage(calls, verify, i);
    AcceptedHasMessage(calls, verify, j);
    MessageInjective(calls[i].request, calls[j].request);
    assert Ops(calls)[..i] == Ops(calls[..i]) && Ops(calls)[..j] == Ops(calls[..j]);
    UsesAreSpaced(NONCE_TTL_SECS, Ops(calls), i, j);
  }

  /** The run goes on with `more`, whose last call accepts the signed message of the last call of `calls` once more, the
      nonce now being spelled in an allowed way. */
  ghost predicate AcceptsAgain(calls: seq<Call>, more: seq<Call>, gap: nat, verify: Verifier, allowed: string -> bool)
    requires calls != [] && calls[|calls| - 1].Request?
  {
    var all, first := calls + more, calls[|calls| - 1];
    && more != [] && Timed(all, gap) && Accepted(all, verify, |all| - 1)
    && Message(all[|all| - 1].request) == Message(first.request)
    && allowed(all[|all| - 1].request.nonce)
  }

  /** A spelling of the nonce bytes that the cache does not stop, now or before the timestamp goes stale. */
  ghost predicate Passes(cache: Cache, r: SignedRequest, gap: nat, t: string)
  {
    GetBytes(t, 16) == GetBytes(r.nonce, 16) && (t in cache ==> r.timestamp + gap > cache[t])
  }

  lemma AgainPasses(calls: seq<Call>, more: seq<Call>, gap: nat, verify: Verifier, allowed: string -> bool)
    requires calls != [] && Timed(calls, gap) && Accepted(calls, verify, |calls| - 1)
    requires AcceptsAgain(calls, more, gap, verify, allowed)
    ensures var t := more[|more| - 1].request.nonce;
      allowed(t) && Passes(Cached(calls), calls[|calls| - 1].request, gap, t)
  {
    hide Message, Outcome, Cached, After, GetBytes;
    var all, n := calls + more, |calls|;
    var j := |all| - 1;
    var r, t := calls[n - 1].request, all[j].request.nonce;
    assert calls[n - 1] == all[n - 1];
    AcceptedHasMessage(calls, verify, n - 1);
    AcceptedHasMessage(all, verify, j);
    MessageInjective(r, all[j].request);
    assert all[..n] == calls;
    if t in Cached(calls) {
      RecordedIsOld(all, verify, t, n, j);
      assert all[j].now <= all[j].seen + gap;
    }
  }

  /** What was recorded by the n-th call is older than the lifetime when a later call accepts its nonce. */
  lemma RecordedIsOld(all: seq<Call>, verify: Verifier, t: string, n: nat, j: nat)
    requires n <= j < |all| && t in Cached(all[..n]) && Accepts(Cached(all[..j]), NONCE_TTL_SECS, Check(t, all[j].now))
    requires forall i, k :: 0 <= i <= k < |all| ==> all[i].now <= all[k].now
    ensures all[j].now - Cached(all[..n])[t] > NONCE_TTL_SECS
  {
    hide After;
    assert Ops(all)[..n] == Ops(all[..n]) && Ops(all)[..j] == Ops(all[..j]);
    StaysRecorded(NONCE_TTL_SECS, Ops(all), t, n, j);
    assert j > 0 ==> all[j - 1].now <= all[j].now;
  }

  /** The repeated call: at the same instant when the cache does not know the spelling, otherwise as soon as it has
      forgotten it, its timestamp read at the last moment that passes. */
  function Repeated(cache: Cache, c: Call, t: string): Call
    requires c.Request?
  {
    var r := c.request.(nonce := t);
    if t !in cache then Request(r, c.payloadHash, c.seen, c.now)
    else
      var seen := r.timestamp + SIGNATURE_VALIDITY_SECS;
      Request(r, c.payloadHash, seen, Max(Max(c.now, cache[t] + NONCE_TTL_SECS + 1), seen))
  }

  function Max(a: nat, b: nat): nat { if a < b then b else a }

  lemma PassesAgain(calls: seq<Call>, gap: nat, verify: Verifier, allowed: string -> bool, t: string)
    requires calls != [] && Timed(calls, gap) && Accepted(calls, verify, |calls| - 1)
    requires allowed(t) && Passes(Cached(calls), calls[|calls| - 1].request, gap, t)
    ensures AcceptsAgain(calls, [Repeated(Cached(calls), calls[|calls| - 1], t)], gap, verify, allowed)
  {
    hide Message, SignedCheck, GetBytes, Cached;
    var n := |calls|;
    var first := calls[n - 1];
    var again := Repeated(Cached(calls), first, t);
    var all := calls + [again];
    AcceptedHasMessage(calls, verify, n - 1);
    Respelled(first.request, t, first.payloadHash, verify);
    assert all[..n] == calls && calls[..n] == calls;
  }

  /** After any run that ends with an accepted request, the same signed message can be accepted once more exactly when
      one of the allowed spellings of its nonce is unknown to the cache, or was recorded less than `gap` seconds after
      the timestamp. */
  lemma AcceptedAgain(calls: seq<Call>, gap: nat, verify: Verifier, allowed: string -> bool)
    requires calls != [] && Timed(calls, gap) && Accepted(calls, verify, |calls| - 1)
    ensures (exists more :: AcceptsAgain(calls, more, gap, verify, allowed))
       <==> (exists t :: allowed(t) && Passes(Cached(calls), calls[|calls| - 1].request, gap, t))
  {
    assert calls[|calls| - 1].Request?;
    hide AcceptsAgain, Passes, Accepted, Timed, Cached;
    forall more | AcceptsAgain(calls, more, gap, verify, allowed)
      ensures exists t :: allowed(t) && Passes(Cached(calls), calls[|calls| - 1].request, gap, t)
    {
      AgainPasses(calls, more, gap, verify, allowed);
    }
    forall t | allowed(t) && Passes(Cached(calls), calls[|calls| - 1].request, gap, t)
      ensures exists more :: AcceptsAgain(calls, more, gap, verify, allowed)
    {
      PassesAgain(calls, gap, verify, allowed, t);
    }
  }

  // ---------------------------------------------------------------- spellings --

  /** The spelling clients send: 32 lower-case hex digits without prefix. */
  predicate Canonical(s: string)
  {
    |s| == 32 && forall i :: 0 <= i < |s| ==> '0' <= s[i] <= '9' || 'a' <= s[i] <= 'f'
  }

  lemma CanonicalBytes(s: string)
    requires Canonical(s)
    ensures StripHexPrefix(s) == s && GetBytes(s, 16).Ok?
    ensures forall i :: 0 <= i < 16 ==> GetBytes(s, 16).value[i] == DigitOf(s[2 * i]) * 16 + DigitOf(s[2 * i + 1])
  {
    assert s[1] != 'x' && s[1] != 'X';
    assert forall i :: 0 <= i < |s| ==> DigitOf(s[i]) < 16;
  }

  lemma CanonicalDigit(c: char, d: char)
    requires ('0' <= c <= '9' || 'a' <= c <= 'f') && ('0' <= d <= '9' || 'a' <= d <= 'f') && DigitOf(c) == DigitOf(d)
    ensures c == d && DigitOf(c) < 16
  {
  }

  /** Nonce bytes have one canonical spelling. */
  lemma CanonicalUnique(s: string, t: string)
    requires Canonical(s) && Canonical(t) && GetBytes(s, 16) == GetBytes(t, 16)
    ensures s == t
  {
    hide GetBytes, DigitOf;
    CanonicalBytes(s);
    CanonicalBytes(t);
    forall k | 0 <= k < 32 ensures s[k] == t[k] {
      var i := k / 2;
      assert GetBytes(s, 16).value[i] == GetBytes(t, 16).value[i];
      SamePair(s[2 * i], s[2 * i + 1], t[2 * i], t[2 * i + 1]);
      assert k == 2 * i || k == 2 * i + 1;
    }
  }

  lemma SamePair(a: char, b: char, c: char, d: char)
    requires forall x :: x in [a, b, c, d] ==> '0' <= x <= '9' || 'a' <= x <= 'f'
    requires DigitOf(a) * 16 + DigitOf(b) == DigitOf(c) * 16 + DigitOf(d)
    ensures a == c && b == d
  {
    assert a in [a, b, c, d] && b in [a, b, c, d] && c in [a, b, c, d] && d in [a, b, c, d];
    assert DigitOf(b) < 16 && DigitOf(d) < 16;
    CanonicalDigit(a, c);
    CanonicalDigit(b, d);
  }

  /** As long as nonces are spelled canonically, an accepted message can be accepted again exactly when its timestamp was
      less than `gap` seconds behind the clock, or ahead of it. */
  lemma ReplayWindow(calls: seq<Call>, gap: nat, verify: Verifier)
    requires calls != [] && Timed(calls, gap) && Accepted(calls, verify, |calls| - 1)
    requires Canonical(calls[|calls| - 1].request.nonce)
    ensures (exists more :: AcceptsAgain(calls, more, gap, verify, Canonical))
       <==> calls[|calls| - 1].request.timestamp + gap > calls[|calls| - 1].now
  {
    assert calls[|calls| - 1].Request?;
    hide AcceptsAgain, Accepted, Timed, Canonical;
    var n := |calls| - 1;
    var r := calls[n].request;
    AcceptedAgain(calls, gap, verify, Canonical);
    LastIsRecorded(calls, verify);
    forall t | Canonical(t) && Passes(Cached(calls), r, gap, t) ensures t == r.nonce {
      CanonicalUnique(t, r.nonce);
    }
    assert Passes(Cached(calls), r, gap, r.nonce) <==> r.timestamp + gap > calls[n].now;
  }

  lemma LastIsRecorded(calls: seq<Call>, verify: Verifier)
    requires calls != [] && Accepted(calls, verify, |calls| - 1)
    ensures var last := calls[|calls| - 1];
      last.request.nonce in Cached(calls) && Cached(calls)[last.request.nonce] == last.now
  {
    assert calls[|calls| - 1].Request?;
    hide Outcome, Cached;
    AcceptedHasMessage(calls, verify, |calls| - 1);
    CachedStep(calls, |calls| - 1);
    assert calls[..|calls|] == calls;
  }

  lemma {:induction false} CachedAreChecked(calls: seq<Call>)
    requires forall i :: 0 <= i < |calls| && calls[i].Request? ==> Canonical(calls[i].request.nonce)
    ensures forall t :: t in Cached(calls) ==> Canonical(t)
  {
    hide Canonical, Cached;
    if calls != [] {
      var n := |calls| - 1;
      CachedAreChecked(calls[..n]);
      CachedStep(calls, n);
      assert calls[..n + 1] == calls;
    } else {
      NothingCached();
    }
  }

  lemma NothingCached()
    ensures Cached([]) == map[]
  {
  }

  /** The cache compares spellings, the signature covers bytes: after a run of canonical nonces an accepted message is
      accepted once more at the same instant with its nonce prefixed, whatever its timestamp. */
  lemma PrefixedIsAccepted(calls: seq<Call>, gap: nat, verify: Verifier)
    requires calls != [] && Timed(calls, gap) && Accepted(calls, verify, |calls| - 1)
    requires forall i :: 0 <= i < |calls| && calls[i].Request? ==> Canonical(calls[i].request.nonce)
    ensures var last := calls[|calls| - 1];
      AcceptsAgain(calls, [last.(request := last.request.(nonce := "0x" + last.request.nonce))], gap, verify, _ => true)
  {
    assert calls[|calls| - 1].Request?;
    hide AcceptsAgain, Accepted, Timed, Cached, GetBytes;
    var last := calls[|calls| - 1];
    var t := "0x" + last.request.nonce;
    CachedAreChecked(calls);
    assert !Canonical(t);
    PrefixedBytes(last.request.nonce);
    PassesAgain(calls, gap, verify, _ => true, t);
    assert Repeated(Cached(calls), last, t) == last.(request := last.request.(nonce := t));
  }

  lemma PrefixedBytes(s: string)
    requires Canonical(s)
    ensures GetBytes("0x" + s, 16) == GetBytes(s, 16)
  {
    CanonicalBytes(s);
    assert ("0x" + s)[2..] == s;
  }

  // ---------------------------------------------------------------------- hex --

  const LOWER_HEX := "0123456789abcdef"
  const UPPER_HEX := "0123456789ABCDEF"

  /** Two digits a byte, high digit first. */
  function HexText(bytes: seq<byte>, digits: string): (s: string)
    requires |digits| == 16
    ensures |s| == 2 * |bytes|
  {
    if bytes == [] then "" else [digits[bytes[0] / 16], digits[bytes[0] % 16]] + HexText(bytes[1..], digits)
  }

  lemma HexDigit(d: nat, digits: string)
    requires d < 16 && digits in {LOWER_HEX, UPPER_HEX}
    ensures DigitOf(digits[d]) == d
  {
  }

  lemma {:induction false} HexTextAt(bytes: seq<byte>, digits: string, i: nat)
    requires |digits| == 16 && i < |bytes|
    ensures HexText(bytes, digits)[2 * i] == digits[bytes[i] / 16]
    ensures HexText(bytes, digits)[2 * i + 1] == digits[bytes[i] % 16]
  {
    if i != 0 {
      HexTextAt(bytes[1..], digits, i - 1);
    }
  }

  /** Decoding undoes hex printing, in either case. */
  lemma DecodeHexText(bytes: seq<byte>, digits: string)
    requires digits in {LOWER_HEX, UPPER_HEX}
    ensures HexDecode(HexText(bytes, digits)) == Some(bytes)
  {
    hide DigitOf, HexText;
    assert |digits| == 16;
    var s := HexText(bytes, digits);
    forall k | 0 <= k < |s|
      ensures DigitOf(s[k]) == if k % 2 == 0 then bytes[k / 2] / 16 else bytes[k / 2] % 16
    {
      HexTextAt(bytes, digits, k / 2);
      HexDigit(bytes[k / 2] / 16, digits);
      HexDigit(bytes[k / 2] % 16, digits);
    }
    assert |s| / 2 == |bytes|;
    assert HexDecode(s).Some?;
    forall i | 0 <= i < |bytes| ensures HexDecode(s).value[i] == bytes[i] {
      assert DigitOf(s[2 * i]) == bytes[i] / 16 && DigitOf(s[2 * i + 1]) == bytes[i] % 16;
    }
    assert HexDecode(s).value == bytes;
  }

  lemma HexTextHasNoPrefix(bytes: seq<byte>, digits: string)
    requires digits in {LOWER_HEX, UPPER_HEX} && bytes != []
    ensures StripHexPrefix(HexText(bytes, digits)) == HexText(bytes, digits)
  {
    HexTextAt(bytes, digits, 0);
    HexDigit(bytes[0] % 16, digits);
  }

  /** A field of n bytes is read from its hex text, in either case, alone or behind 0x or 0X. */
  lemma FieldIsRead(bytes: seq<byte>, digits: string, prefix: string)
    requires digits in {LOWER_HEX, UPPER_HEX} && prefix in {"", "0x", "0X"} && bytes != []
    ensures GetBytes(prefix + HexText(bytes, digits), |bytes|) == Ok(bytes)
  {
    hide HexDecode, HexText;
    var s := HexText(bytes, digits);
    DecodeHexText(bytes, digits);
    HexTextHasNoPrefix(bytes, digits);
    if prefix == "" {
      assert prefix + s == s;
    } else {
      assert (prefix + s)[2..] == s;
    }
  }

  /** A field is refused exactly when, behind an optional prefix, it is not 2n hex digits. */
  lemma FieldIsRefused(s: string, n: nat)
    ensures var t := if |s| >= 2 && s[0] == '0' && (s[1] == 'x' || s[1] == 'X') then s[2..] else s;
      GetBytes(s, n).Ok? <==>
      |t| == 2 * n && forall i :: 0 <= i < |t| ==> '0' <= t[i] <= '9' || 'a' <= t[i] <= 'f' || 'A' <= t[i] <= 'F'
  {
    assert "0x" <= s <==> |s| >= 2 && s[0] == '0' && s[1] == 'x';
    assert "0X" <= s <==> |s| >= 2 && s[0] == '0' && s[1] == 'X';
  }

  /** The canonical spelling of a nonce is its lower-case hex text. */
  lemma CanonicalExactly(nonce: seq<byte>, s: string)
    requires |nonce| == 16
    ensures Canonical(s) && GetBytes(s, 16) == Ok(nonce) <==> s == HexText(nonce, LOWER_HEX)
  {
    hide GetBytes, HexText;
    var t := HexText(nonce, LOWER_HEX);
    forall k | 0 <= k < 32 ensures '0' <= t[k] <= '9' || 'a' <= t[k] <= 'f' {
      HexTextAt(nonce, LOWER_HEX, k / 2);
      assert k == 2 * (k / 2) || k == 2 * (k / 2) + 1;
    }
    assert "" + t == t;
    FieldIsRead(nonce, LOWER_HEX, "");
    if Canonical(s) && GetBytes(s, 16) == Ok(nonce) {
      CanonicalUnique(s, t);
    }
  }
}
