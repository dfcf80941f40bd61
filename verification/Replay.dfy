/** The replay window of a signed request: the timestamp check of internal/security/hmac.go
    and the nonces the signer's store keeps. Times are nanoseconds, timestamps seconds. */
module ReplayWindow {

  const SECOND := 1_000_000_000

  const INT64_LIMIT := 0x8000_0000_0000_0000

  type int64 = x: int | -0x8000_0000_0000_0000 <= x < 0x8000_0000_0000_0000

  /** The skew limit in seconds and a nonce's time to live. */
  datatype Limits = Limits(maxSkew: int64, ttl: nat)

  /** What an int64 keeps of a number. */
  function Wrapped(x: int): int64 {
    (x + INT64_LIMIT) % (2 * INT64_LIMIT) - INT64_LIMIT
  }

  /** The skew as the check computes it, in whole seconds and 64 bits. */
  function Skew(timestamp: int64, now: int): int64 {
    var diff: int := Wrapped(now / SECOND - timestamp);
    if diff < 0 then Wrapped(-diff) else diff
  }

  predicate TimestampAccepted(timestamp: int64, now: int, maxSkew: int64) {
    Skew(timestamp, now) <= maxSkew
  }

  /** Clock readings that fit 63 bits of nanoseconds. */
  predicate OnClock(now: int) {
    0 <= now < INT64_LIMIT
  }

  /** With d the seconds from the timestamp to now, the check accepts exactly: distances
      within the limit; a d of 2^63, which wraps to a negative number that negation leaves
      negative; and a larger d, which wraps to a distance from the other side. */
  lemma TimestampAcceptedIff(timestamp: int64, now: int, maxSkew: int64)
    requires OnClock(now)
    ensures var d := now / SECOND - timestamp;
            TimestampAccepted(timestamp, now, maxSkew)
            <==> if d < INT64_LIMIT then d <= maxSkew && -d <= maxSkew
                 else d == INT64_LIMIT || 2 * INT64_LIMIT - d <= maxSkew
  {
    var d := now / SECOND - timestamp;
    assert 0 <= now / SECOND <= INT64_LIMIT / SECOND;
    if d >= INT64_LIMIT {
      assert Wrapped(d) == d - 2 * INT64_LIMIT;
    } else {
      assert Wrapped(d) == d;
    }
  }

  /** AcceptNonce first drops what has expired. */
  function Purged(nonces: map<string, int>, now: int): map<string, int> {
    map n | n in nonces && !(now > nonces[n]) :: nonces[n]
  }

  predicate NonceAccepted(nonces: map<string, int>, nonce: string, now: int) {
    nonce !in Purged(nonces, now)
  }

  function AfterAccept(nonces: map<string, int>, nonce: string, now: int, ttl: nat): map<string, int> {
    if NonceAccepted(nonces, nonce, now) then Purged(nonces, now)[nonce := now + ttl] else Purged(nonces, now)
  }

  /** One request: its timestamp is checked first, its nonce somewhat later. */
  datatype Attempt = Attempt(timestamp: int64, nonce: string, checkedAt: int, acceptedAt: int)

  /** The nonces kept after the attempts; one that fails the timestamp never gets there. */
  function NoncesAfter(attempts: seq<Attempt>, limits: Limits): map<string, int> {
    if attempts == [] then map[]
    else
      var before := NoncesAfter(attempts[..|attempts| - 1], limits);
      var a := attempts[|attempts| - 1];
      if TimestampAccepted(a.timestamp, a.checkedAt, limits.maxSkew)
      then AfterAccept(before, a.nonce, a.acceptedAt, limits.ttl) else before
  }

  predicate Accepted(attempts: seq<Attempt>, i: nat, limits: Limits)
    requires i < |attempts|
  {
    var a := attempts[i];
    TimestampAccepted(a.timestamp, a.checkedAt, limits.maxSkew)
    && NonceAccepted(NoncesAfter(attempts[..i], limits), a.nonce, a.acceptedAt)
  }

  /** Nonces are consumed in clock order, each at most `delay` after its timestamp check. */
  predicate WellTimed(attempts: seq<Attempt>, delay: nat) {
    (forall i :: 0 <= i < |attempts| ==>
       OnClock(attempts[i].checkedAt)
       && attempts[i].checkedAt <= attempts[i].acceptedAt <= attempts[i].checkedAt + delay)
    && forall i, j :: 0 <= i < j < |attempts| ==> attempts[i].acceptedAt <= attempts[j].acceptedAt
  }

  /** All acceptances of one timestamp fall into less than this: the window of the skew
      limit, or the whole clock where that is shorter. */
  function Window(maxSkew: int64): int {
    var window := if maxSkew < 0 then SECOND else (2 * maxSkew + 1) * SECOND;
    if window < INT64_LIMIT then window else INT64_LIMIT
  }

  /** The shortest time to live that outlasts every acceptance of one timestamp. */
  function SafeTtl(maxSkew: int64, delay: nat): int {
    Window(maxSkew) + delay - 1
  }

  /** An accepted nonce is kept until its expiry has passed. */
  lemma {:induction false} NonceKept(attempts: seq<Attempt>, limits: Limits, delay: nat, i: nat, j: nat)
    requires WellTimed(attempts, delay) && i < j <= |attempts| && Accepted(attempts, i, limits)
    ensures var nonces, nonce := NoncesAfter(attempts[..j], limits), attempts[i].nonce;
            attempts[j - 1].acceptedAt > attempts[i].acceptedAt + limits.ttl
            || (nonce in nonces && nonces[nonce] == attempts[i].acceptedAt + limits.ttl)
  {
    var before := attempts[..j - 1];
    assert attempts[..j][..j - 1] == before && attempts[..j][j - 1] == attempts[j - 1];
    if i < j - 1 {
      NonceKept(attempts, limits, delay, i, j - 1);
    }
  }

  /** A nonce that no earlier attempt had is not kept. */
  lemma {:induction false} NewNonceNotKept(attempts: seq<Attempt>, limits: Limits, nonce: string)
    requires forall i :: 0 <= i < |attempts| ==> attempts[i].nonce != nonce
    ensures nonce !in NoncesAfter(attempts, limits)
  {
    if attempts != [] {
      NewNonceNotKept(attempts[..|attempts| - 1], limits, nonce);
    }
  }

  /** An attempt with a nonce not tried before is accepted exactly when its timestamp is. */
  lemma NewNonceAccepted(attempts: seq<Attempt>, i: nat, limits: Limits)
    requires i < |attempts| && forall j :: 0 <= j < i ==> attempts[j].nonce != attempts[i].nonce
    ensures Accepted(attempts, i, limits)
       <==> TimestampAccepted(attempts[i].timestamp, attempts[i].checkedAt, limits.maxSkew)
  {
    hide TimestampAccepted;
    NewNonceNotKept(attempts[..i], limits, attempts[i].nonce);
  }

  /** A nonce kept is refused up to its expiry, and accepted later. */
  lemma AcceptedIffExpired(nonces: map<string, int>, nonce: string, now: int)
    ensures NonceAccepted(nonces, nonce, now) <==> nonce !in nonces || nonces[nonce] < now
    ensures forall n, ttl :: n != nonce ==>
              (n in AfterAccept(nonces, nonce, now, ttl) <==> n in nonces && now <= nonces[n])
    ensures forall n, ttl :: n != nonce && n in AfterAccept(nonces, nonce, now, ttl) ==>
              AfterAccept(nonces, nonce, now, ttl)[n] == nonces[n]
    ensures forall ttl ::
              nonce in AfterAccept(nonces, nonce, now, ttl)
              && AfterAccept(nonces, nonce, now, ttl)[nonce]
                 == if nonce in nonces && now <= nonces[nonce] then nonces[nonce] else now + ttl
  {
  }

  /** Two checks that accept one timestamp are less than the window apart. */
  lemma SameTimestampSpan(timestamp: int64, c1: int, c2: int, maxSkew: int64)
    requires OnClock(c1) && OnClock(c2)
    requires TimestampAccepted(timestamp, c1, maxSkew) && TimestampAccepted(timestamp, c2, maxSkew)
    ensures c2 - c1 < Window(maxSkew)
  {
    TimestampAcceptedIff(timestamp, c1, maxSkew);
    TimestampAcceptedIff(timestamp, c2, maxSkew);
  }

  /** A nonce accepted again has outlived its first acceptance. */
  lemma AcceptedAgainLate(attempts: seq<Attempt>, limits: Limits, delay: nat, i: nat, j: nat)
    requires WellTimed(attempts, delay) && i < j < |attempts| && attempts[i].nonce == attempts[j].nonce
    requires Accepted(attempts, i, limits) && Accepted(attempts, j, limits)
    ensures attempts[j].acceptedAt > attempts[i].acceptedAt + limits.ttl
  {
    NonceKept(attempts, limits, delay, i, j);
  }

  /** Main result, one half: with a time to live of at least the window plus the delay minus
      a nanosecond, no run accepts a (timestamp, nonce) pair twice. */
  lemma AcceptedAtMostOnce(attempts: seq<Attempt>, limits: Limits, delay: nat, i: nat, j: nat)
    requires limits.ttl >= SafeTtl(limits.maxSkew, delay)
    requires WellTimed(attempts, delay) && i < j < |attempts|
    requires attempts[i].timestamp == attempts[j].timestamp && attempts[i].nonce == attempts[j].nonce
    requires Accepted(attempts, i, limits)
    ensures !Accepted(attempts, j, limits)
  {
    if Accepted(attempts, j, limits) {
      SameTimestampSpan(attempts[i].timestamp, attempts[i].checkedAt, attempts[j].checkedAt, limits.maxSkew);
      AcceptedAgainLate(attempts, limits, delay, i, j);
    }
  }

  /** A timestamp accepted over the whole of its window. */
  lemma WholeWindow(maxSkew: int64) returns (timestamp: int64)
    ensures TimestampAccepted(timestamp, 0, maxSkew)
    ensures TimestampAccepted(timestamp, Window(maxSkew) - 1, maxSkew)
  {
    var last := Window(maxSkew) - 1;
    timestamp := if maxSkew < 0 then -INT64_LIMIT else last / SECOND / 2;
    TimestampAcceptedIff(timestamp, 0, maxSkew);
    TimestampAcceptedIff(timestamp, last, maxSkew);
  }

  /** The other half: with any shorter time to live some run accepts a pair twice. */
  lemma AcceptedTwice(limits: Limits, delay: nat) returns (attempts: seq<Attempt>)
    requires limits.ttl < SafeTtl(limits.maxSkew, delay)
    ensures WellTimed(attempts, delay) && |attempts| == 2
    ensures attempts[0].timestamp == attempts[1].timestamp && attempts[0].nonce == attempts[1].nonce
    ensures Accepted(attempts, 0, limits) && Accepted(attempts, 1, limits)
  {
    var timestamp := WholeWindow(limits.maxSkew);
    var last := Window(limits.maxSkew) - 1;
    hide TimestampAccepted;
    attempts := [Attempt(timestamp, "n", 0, 0), Attempt(timestamp, "n", last, last + delay)];
    assert attempts[..0] == [] && attempts[..1] == [attempts[0]];
    assert [attempts[0]][..0] == [];
    assert NoncesAfter(attempts[..1], limits) == map["n" := limits.ttl];
  }

  /** The defaults, 300 s of skew and 300 s of life, are on the wrong side. */
  lemma DefaultsAreShort(delay: nat) returns (attempts: seq<Attempt>)
    ensures WellTimed(attempts, delay) && |attempts| == 2
    ensures attempts[0].timestamp == attempts[1].timestamp && attempts[0].nonce == attempts[1].nonce
    ensures Accepted(attempts, 0, Limits(300, 300 * SECOND)) && Accepted(attempts, 1, Limits(300, 300 * SECOND))
  {
    attempts := AcceptedTwice(Limits(300, 300 * SECOND), delay);
  }
}
