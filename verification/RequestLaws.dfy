/** What RequestValidation lets through, told by the texts of a request alone. */
module RequestLaws {
  import opened ReplayWindow
  import opened RequestValidation
  import opened SignedMessages

  /** What is signed: timestamp, nonce and the last part, with dots between them. */
  function Dotted(timestamp: string, nonce: string, last: string): string {
    timestamp + "." + nonce + "." + last
  }

  /** Before any rotation a request passes exactly when its parts are there, its timestamp is
      accepted and its signature is the active secret's of the dotted text: a wrong signature
      is refused. */
  lemma FreshSecretPassesIff(lib: Library, active: string, maxSkew: int64, timestamp: string, nonce: string,
                             signature: string, last: string, now: int)
    ensures Passes(lib, Secrets(active, ""), maxSkew, timestamp, nonce, signature, last, now)
       <==> && active != "" && timestamp != "" && nonce != "" && signature != ""
            && lib.parseInt(timestamp).Some? && TimestampAccepted(lib.parseInt(timestamp).value, now, maxSkew)
            && signature == lib.mac(active, Dotted(timestamp, nonce, last))
  {
    hide TimestampAccepted;
  }

  /** After one rotation the signature is the new secret's or the one before it. */
  lemma RotatedSecretPassesIff(lib: Library, active: string, next: string, former: string, maxSkew: int64,
                               timestamp: string, nonce: string, signature: string, last: string, now: int)
    requires active != ""
    ensures Passes(lib, Rotated(Secrets(active, former), next), maxSkew, timestamp, nonce, signature, last, now)
       <==> && next != "" && timestamp != "" && nonce != "" && signature != ""
            && lib.parseInt(timestamp).Some? && TimestampAccepted(lib.parseInt(timestamp).value, now, maxSkew)
            && (signature == lib.mac(next, Dotted(timestamp, nonce, last))
                || signature == lib.mac(active, Dotted(timestamp, nonce, last)))
  {
    hide TimestampAccepted;
  }

  /** Two rotations forget a secret: what only it signs is refused. */
  lemma TwoRotationsForget(lib: Library, secrets: Secrets, next: string, last: string, maxSkew: int64,
                           timestamp: string, nonce: string, signature: string, part: string, now: int)
    requires signature != lib.mac(next, Dotted(timestamp, nonce, part))
    requires signature != lib.mac(last, Dotted(timestamp, nonce, part))
    ensures !Passes(lib, Rotated(Rotated(secrets, next), last), maxSkew, timestamp, nonce, signature, part, now)
  {
    hide TimestampAccepted;
  }

  /** The credentials are those of the current headers if any of them is there, and else of
      the older ones. */
  lemma CredentialsAre(req: Request)
    ensures req.current.timestamp != "" || req.current.nonce != "" || req.current.signature != "" ==>
              CredentialsOf(req) == req.current
    ensures req.current.timestamp == "" && req.current.nonce == "" && req.current.signature == "" ==>
              CredentialsOf(req) == req.legacy
  {
  }

  /** A request without a signature needs no more than a body that can be read. */
  lemma UnsignedPasses(lib: Library, secrets: Secrets, maxSkew: int64, req: Request, maxBodySize: int, now: int)
    requires CredentialsOf(req).signature == ""
    ensures SignatureOk(lib, secrets, maxSkew, req, maxBodySize, now) <==> req.body.Some?
  {
    hide Passes;
  }

  /** One with a signature under the current headers signs the hash of the body, under the
      older ones the body itself; in both cases the first maxBodySize characters of it. */
  lemma SignedOkIff(lib: Library, active: string, maxSkew: int64, req: Request, maxBodySize: nat, now: int,
                    c: Credentials)
    requires c == CredentialsOf(req) && c.signature != "" && req.body.Some?
    ensures exists read :: read <= req.body.value
              && |read| == (if |req.body.value| < maxBodySize then |req.body.value| else maxBodySize)
              && (SignatureOk(lib, Secrets(active, ""), maxSkew, req, maxBodySize, now) <==>
                    && active != "" && c.timestamp != "" && c.nonce != ""
                    && lib.parseInt(c.timestamp).Some?
                    && TimestampAccepted(lib.parseInt(c.timestamp).value, now, maxSkew)
                    && c.signature
                       == lib.mac(active, Dotted(c.timestamp, c.nonce,
                                                 if c == req.current then lib.sha256Hex(read) else read)))
  {
    var read := BodyRead(req.body.value, maxBodySize);
    FreshSecretPassesIff(lib, active, maxSkew, c.timestamp, c.nonce, c.signature, LastPart(lib, req, maxBodySize),
                         now);
    hide Passes, TimestampAccepted;
  }

  /** A body counts as too large only against a positive limit. */
  lemma TooLargeIff(req: Request, maxBodySize: int)
    ensures TooLarge(req, maxBodySize) <==> 0 < maxBodySize < req.contentLength
  {
  }

  /** A request counts for its API key, and without one for its address. */
  lemma RateKeyIs(req: Request)
    ensures req.apiKey != "" ==> RateKey(req) == req.apiKey
    ensures req.apiKey == "" ==> RateKey(req) == req.clientIP
  {
  }
}
