/** The messages whose signatures internal/security/hmac.go checks. SHA-256 and HMAC are
    parameters; header and body texts are strings. */
module SignedMessages {
  import opened ReplayWindow
  import opened Wrappers

  function Message(timestamp: string, nonce: string, last: string): string {
    timestamp + "." + nonce + "." + last
  }

  predicate DotFree(s: string) {
    '.' !in s
  }

  lemma FirstDot(a: string, x: string, b: string, y: string)
    requires DotFree(a) && DotFree(b) && a + "." + x == b + "." + y
    ensures a == b && x == y
  {
    var s := a + "." + x;
    assert s[|a|] == '.' && s[|b|] == '.';
    assert forall i :: 0 <= i < |a| ==> s[i] == a[i];
    assert forall i :: 0 <= i < |b| ==> s[i] == b[i];
    assert s[..|a|] == a && s[..|b|] == b && s[|a| + 1..] == x && s[|b| + 1..] == y;
  }

  lemma LastDot(a: string, x: string, b: string, y: string)
    requires DotFree(x) && DotFree(y) && a + "." + x == b + "." + y
    ensures a == b && x == y
  {
    var s := a + "." + x;
    assert s[|a|] == '.' && s[|b|] == '.';
    assert forall i :: |a| < i < |s| ==> s[i] == x[i - |a| - 1];
    assert forall i :: |b| < i < |s| ==> s[i] == y[i - |b| - 1];
    assert s[..|a|] == a && s[..|b|] == b && s[|a| + 1..] == x && s[|b| + 1..] == y;
  }

  lemma MessageSplits(timestamp: string, nonce: string, last: string)
    ensures Message(timestamp, nonce, last) == timestamp + "." + (nonce + "." + last)
  {
  }

  /** A message that ends in a hexadecimal hash determines its three parts, whatever the
      nonces hold: a parsed timestamp and a hash have no dot. */
  lemma HashedMessageReadsBack(t1: string, n1: string, h1: string, t2: string, n2: string, h2: string)
    requires DotFree(t1) && DotFree(t2) && DotFree(h1) && DotFree(h2)
    requires Message(t1, n1, h1) == Message(t2, n2, h2)
    ensures t1 == t2 && n1 == n2 && h1 == h2
  {
    MessageSplits(t1, n1, h1);
    MessageSplits(t2, n2, h2);
    FirstDot(t1, n1 + "." + h1, t2, n2 + "." + h2);
    LastDot(n1, h1, n2, h2);
  }

  /** A message that ends in the raw body does so among nonces without a dot, such as the
      hexadecimal ones GenerateNonce makes. */
  lemma RawMessageReadsBack(t1: string, n1: string, b1: string, t2: string, n2: string, b2: string)
    requires DotFree(t1) && DotFree(t2) && DotFree(n1) && DotFree(n2)
    requires Message(t1, n1, b1) == Message(t2, n2, b2)
    ensures t1 == t2 && n1 == n2 && b1 == b2
  {
    MessageSplits(t1, n1, b1);
    MessageSplits(t2, n2, b2);
    FirstDot(t1, n1 + "." + b1, t2, n2 + "." + b2);
    FirstDot(n1, b1, n2, b2);
  }

  ghost predicate SoleReading(timestamp: string, nonce: string, body: string) {
    forall n, b :: Message(timestamp, n, b) == Message(timestamp, nonce, body) ==> n == nonce && b == body
  }

  /** Among all nonces it does so exactly when neither the nonce nor the body has a dot. */
  lemma RawSoleReadingIff(timestamp: string, nonce: string, body: string)
    requires DotFree(timestamp)
    ensures SoleReading(timestamp, nonce, body) <==> DotFree(nonce) && DotFree(body)
  {
    if i :| 0 <= i < |nonce| && nonce[i] == '.' {
      var n, b := nonce[..i], nonce[i + 1..] + "." + body;
      assert nonce == n + "." + nonce[i + 1..];
      assert Message(timestamp, n, b) == Message(timestamp, nonce, body);
      assert n != nonce;
    } else if i :| 0 <= i < |body| && body[i] == '.' {
      var n, b := nonce + "." + body[..i], body[i + 1..];
      assert body == body[..i] + "." + b;
      assert Message(timestamp, n, b) == Message(timestamp, nonce, body);
      assert n != nonce;
    } else {
      forall n, b | Message(timestamp, n, b) == Message(timestamp, nonce, body)
        ensures n == nonce && b == body
      {
        MessageSplits(timestamp, n, b);
        MessageSplits(timestamp, nonce, body);
        FirstDot(timestamp, n + "." + b, timestamp, nonce + "." + body);
        OneDotOnly(n, b, nonce, body);
      }
    }
  }

  lemma OneDotOnly(n: string, b: string, nonce: string, body: string)
    requires DotFree(nonce) && DotFree(body) && n + "." + b == nonce + "." + body
    ensures n == nonce && b == body
  {
    var s := nonce + "." + body;
    assert forall i :: 0 <= i < |s| ==> (s[i] == '.' <==> i == |nonce|);
    assert s[|n|] == '.';
    assert s[..|n|] == n && s[..|nonce|] == nonce && s[|n| + 1..] == b && s[|nonce| + 1..] == body;
  }

  // ---- the validator -----------------------------------------------------------------------

  /** The library calls the validator makes. */
  datatype Library = Library(
    parseInt: string -> Option<int64>,
    mac: (string, string) -> string,
    sha256Hex: string -> string)

  datatype Secrets = Secrets(active: string, former: string)

  predicate SignedBy(lib: Library, secrets: Secrets, message: string, signature: string) {
    signature == lib.mac(secrets.active, message)
    || (secrets.former != "" && signature == lib.mac(secrets.former, message))
  }

  /** A request passes with all its parts there, a timestamp near now and the signature of
      its message under either secret. */
  predicate Passes(lib: Library, secrets: Secrets, maxSkew: int64, timestamp: string, nonce: string, signature: string,
                   last: string, now: int)
  {
    && secrets.active != "" && signature != "" && timestamp != "" && nonce != ""
    && lib.parseInt(timestamp).Some?
    && TimestampAccepted(lib.parseInt(timestamp).value, now, maxSkew)
    && SignedBy(lib, secrets, Message(timestamp, nonce, last), signature)
  }

  function Rotated(secrets: Secrets, next: string): Secrets {
    Secrets(next, secrets.active)
  }

  /** What the active secret signed passes after one rotation too. */
  lemma RotationKeepsSignatures(lib: Library, secrets: Secrets, next: string, maxSkew: int64, timestamp: string,
                                nonce: string, last: string, now: int)
    requires next != ""
    requires Passes(lib, secrets, maxSkew, timestamp, nonce, lib.mac(secrets.active, Message(timestamp, nonce, last)),
                    last, now)
    ensures Passes(lib, Rotated(secrets, next), maxSkew, timestamp, nonce,
                   lib.mac(secrets.active, Message(timestamp, nonce, last)), last, now)
  {
    hide TimestampAccepted, Message;
  }
}

/** The objects of internal/security/hmac.go and request.go. */
module RequestValidation {
  import opened NonceManagerClass
  import opened ReplayWindow
  import opened SignedMessages
  import opened SlidingWindowClass
  import opened TokenBucketClass
  import opened Wrappers
  import SlidingWindowSpec
  import TokenBucketSpec

  class HMACValidator {
    var activeSecret: string
    var oldSecret: string
    const maxSkew: int64

    constructor (activeSecret: string, maxSkew: int64)
      ensures TheSecrets() == Secrets(activeSecret, "") && this.maxSkew == maxSkew
    {
      this.activeSecret, oldSecret, this.maxSkew := activeSecret, "", maxSkew;
    }

    function TheSecrets(): Secrets
      reads this
    {
      Secrets(activeSecret, oldSecret)
    }

    method SetOldSecret(secret: string)
      modifies this`oldSecret
      ensures TheSecrets() == old(TheSecrets()).(former := secret)
    {
      oldSecret := secret;
    }

    method RotateSecret(secret: string)
      modifies this`activeSecret, this`oldSecret
      ensures TheSecrets() == Rotated(old(TheSecrets()), secret)
    {
      oldSecret := activeSecret;
      activeSecret := secret;
    }

    method ValidateTimestampInputs(lib: Library, timestamp: string, nonce: string, signature: string, now: int)
      returns (r: Result<()>)
      ensures r.Ok? <==> activeSecret != "" && signature != "" && timestamp != "" && nonce != ""
                         && lib.parseInt(timestamp).Some?
                         && TimestampAccepted(lib.parseInt(timestamp).value, now, maxSkew)
    {
      if activeSecret == "" || signature == "" || timestamp == "" || nonce == "" {
        return Err("credenciais de assinatura ausentes");
      }
      var ts := lib.parseInt(timestamp);
      if ts.None? {
        return Err("timestamp invalido");
      }
      var diff: int := Wrapped(now / SECOND - ts.value);
      if diff < 0 {
        diff := Wrapped(-diff);
      }
      if diff > maxSkew {
        return Err("requisicao expirada");
      }
      return Ok(());
    }

    /** ValidateHMAC signs the hash of the body, ValidateRawBodyHMAC the body itself. */
    method Validate(lib: Library, timestamp: string, nonce: string, signature: string, last: string, now: int)
      returns (r: Result<()>)
      ensures r.Ok? <==> Passes(lib, TheSecrets(), maxSkew, timestamp, nonce, signature, last, now)
    {
      hide TimestampAccepted;
      r := ValidateTimestampInputs(lib, timestamp, nonce, signature, now);
      if r.Err? {
        return;
      }
      var message := Message(timestamp, nonce, last);
      if signature == lib.mac(activeSecret, message) {
        return Ok(());
      }
      if oldSecret != "" && signature == lib.mac(oldSecret, message) {
        return Ok(());
      }
      return Err("assinatura HMAC invalida");
    }
  }

  datatype Credentials = Credentials(timestamp: string, nonce: string, signature: string)

  /** The headers are the signed ones, or the older set of names; a body that cannot be read
      is None. */
  datatype Request = Request(contentLength: int, body: Option<string>, current: Credentials, legacy: Credentials,
                             apiKey: string, clientIP: string)

  datatype Context = Context(validated: bool, nonce: string, timestamp: int64)

  predicate UsesLegacy(req: Request) {
    req.current == Credentials("", "", "")
  }

  function CredentialsOf(req: Request): Credentials {
    if UsesLegacy(req) then req.legacy else req.current
  }

  predicate TooLarge(req: Request, maxBodySize: int) {
    maxBodySize > 0 && req.contentLength > maxBodySize
  }

  /** The reader stops at the limit, and reads nothing without one. */
  function BodyRead(body: string, maxBodySize: int): string {
    if maxBodySize <= 0 then "" else if |body| <= maxBodySize then body else body[..maxBodySize]
  }

  function LastPart(lib: Library, req: Request, maxBodySize: int): string
    requires req.body.Some?
  {
    var body := BodyRead(req.body.value, maxBodySize);
    if UsesLegacy(req) then body else lib.sha256Hex(body)
  }

  /** The body is read first; unsigned requests are not looked at further. */
  predicate SignatureOk(lib: Library, secrets: Secrets, maxSkew: int64, req: Request, maxBodySize: int, now: int) {
    var c := CredentialsOf(req);
    req.body.Some?
    && (c.signature == ""
        || Passes(lib, secrets, maxSkew, c.timestamp, c.nonce, c.signature, LastPart(lib, req, maxBodySize), now))
  }

  function RateKey(req: Request): string {
    if req.apiKey != "" then req.apiKey else req.clientIP
  }

  /** Either limiter. */
  datatype Limiter = Bucket(bucket: TokenBucket) | Window(window: SlidingWindow)

  /** What a limiter keeps. */
  datatype Ledger =
    | Buckets(buckets: map<string, TokenBucketClass.Bucket>)
    | Windows(windows: map<string, seq<real>>)

  function LimiterObject(limiter: Limiter): object {
    match limiter
    case Bucket(b) => b
    case Window(w) => w
  }

  function LedgerOf(limiter: Limiter): Ledger
    reads LimiterObject(limiter)
  {
    match limiter
    case Bucket(b) => Buckets(b.buckets)
    case Window(w) => Windows(w.windows)
  }

  /** A limiter in order, at a time its clock has reached. */
  ghost predicate Ready(limiter: Limiter, key: string, at: real)
    reads LimiterObject(limiter)
  {
    match limiter
    case Bucket(b) => b.Valid()
    case Window(w) =>
      w.Valid() && w.window > 0.0
      && (key in w.pruned && w.pruned[key].Some? ==> w.pruned[key].value <= at - w.window)
  }

  /** What the limiter's specification says of a request now. */
  ghost predicate Admits(limiter: Limiter, key: string, at: real)
    reads LimiterObject(limiter)
  {
    match limiter
    case Bucket(b) => TokenBucketSpec.Conforms(b.HistoryOf(key), b.burst, at, b.rate)
    case Window(w) => key in w.log ==> |SlidingWindowSpec.After(w.log[key], at - w.window)| < w.limit
  }

  method Allow(limiter: Limiter, key: string, at: real) returns (ok: bool)
    requires Ready(limiter, key, at)
    modifies LimiterObject(limiter)
    ensures ok <==> old(Admits(limiter, key, at))
    ensures Ready(limiter, key, at)
  {
    hide TokenBucketSpec.Conforms, TokenBucketSpec.Faithful, SlidingWindowSpec.After, SlidingWindowSpec.Throttled;
    match limiter {
      case Bucket(b) => ok := b.Allow(key, at, at);
      case Window(w) => ok := w.Allow(key, at);
    }
  }

  class RequestValidator {
    const hmac: HMACValidator
    const nonces: NonceManager
    const limiter: Limiter
    const maxBodySize: int

    constructor (hmac: HMACValidator, nonces: NonceManager, limiter: Limiter, maxBodySize: int)
      ensures this.hmac == hmac && this.nonces == nonces && this.limiter == limiter && this.maxBodySize == maxBodySize
    {
      this.hmac, this.nonces, this.limiter, this.maxBodySize := hmac, nonces, limiter, maxBodySize;
    }

    /** Size and signature. */
    method Authenticate(lib: Library, req: Request, now: int) returns (c: Credentials, r: Result<()>)
      ensures c == CredentialsOf(req)
      ensures r.Ok? <==> !TooLarge(req, maxBodySize)
                         && SignatureOk(lib, hmac.TheSecrets(), hmac.maxSkew, req, maxBodySize, now)
    {
      hide Passes;
      c := req.current;
      var legacy := c.timestamp == "" && c.nonce == "" && c.signature == "";
      if legacy {
        c := req.legacy;
      }
      if maxBodySize > 0 && req.contentLength > maxBodySize {
        return c, Err("body size exceeds limit");
      }
      if req.body.None? {
        return c, Err("failed to read body");
      }
      r := Ok(());
      if c.signature != "" {
        var body := BodyRead(req.body.value, maxBodySize);
        r := hmac.Validate(lib, c.timestamp, c.nonce, c.signature, if legacy then body else lib.sha256Hex(body), now);
      }
    }

    /** The nonce, if there is one. */
    method ConsumeNonce(nonce: string, now: int) returns (r: Result<()>)
      modifies nonces.store
      ensures r.Ok? <==> nonce == "" || nonce !in old(nonces.store.store)
      ensures nonces.store.store == if nonce != "" && r.Ok? then old(nonces.store.store)[nonce := now + nonces.ttl]
                                    else old(nonces.store.store)
      ensures nonce == "" ==> nonces.store.deletions == old(nonces.store.deletions)
    {
      if nonce == "" {
        return Ok(());
      }
      r := nonces.ValidateNonce(nonce, now, now);
    }

    /** Size, signature, nonce, rate, in this order: a request refused by one check leaves
        no trace in what the later ones keep, and one refused only for its rate has used
        its nonce up. `now` is the clock in nanoseconds, `at` in the limiter's unit. */
    method ValidateRequest(lib: Library, req: Request, now: int, at: real) returns (r: Result<Context>)
      requires Ready(limiter, RateKey(req), at)
      modifies nonces.store, LimiterObject(limiter)
      ensures Ready(limiter, RateKey(req), at)
      ensures var c, passed := CredentialsOf(req),
                  !TooLarge(req, maxBodySize)
                  && SignatureOk(lib, hmac.TheSecrets(), hmac.maxSkew, req, maxBodySize, now);
              var unused := c.nonce == "" || c.nonce !in old(nonces.store.store);
              && (!passed ==> r.Err? && nonces.store.store == old(nonces.store.store)
                              && nonces.store.deletions == old(nonces.store.deletions))
              && (passed && c.nonce != "" && unused ==>
                    nonces.store.store == old(nonces.store.store)[c.nonce := now + nonces.ttl])
              && (!passed || !unused ==> r.Err? && LedgerOf(limiter) == old(LedgerOf(limiter)))
              && (passed && unused ==> (r.Ok? <==> old(Admits(limiter, RateKey(req), at))))
              && (r.Ok? ==> (r.value.validated <==> c.signature != "") && r.value.nonce == c.nonce)
    {
      assert LimiterObject(limiter) != nonces.store;
      hide *;
      var c, checked := Authenticate(lib, req, now);
      if checked.Err? {
        return Err(checked.error);
      }
      var consumed := ConsumeNonce(c.nonce, now);
      if consumed.Err? {
        return Err(consumed.error);
      }
      var admitted := Allow(limiter, RateKey(req), at);
      if !admitted {
        return Err("rate limit exceeded");
      }
      var ts := lib.parseInt(c.timestamp);
      return Ok(Context(c.signature != "", c.nonce, if c.timestamp != "" && ts.Some? then ts.value else 0));
    }
  }
}
