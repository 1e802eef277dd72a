/**
  Signed tokens of one-click decision links. The keyed digest (HMAC under the server's secret) is a
  parameter; its output has no colon.
 */
module DecisionToken {
  import opened Text
  import opened Decimal
  import opened Wrappers

  type Mac = string -> string

  /** What a verified token says; the version is absent in the legacy format. */
  datatype Claim = Claim(approvalId: string, decision: string, version: Option<int>)

  const TOKEN_EXPIRY := 48 * 3600
  const COLON := ":"

  predicate IsDecision(d: string) {
    d == "approved" || d == "rejected"
  }

  /** The signed text of the legacy format. */
  function LegacyMessage(id: string, decision: string, expires: int): string {
    Join([id, decision, IntText(expires)], COLON)
  }

  /** The signed text of the current format. */
  function Message(id: string, decision: string, expires: int, version: int): string {
    Join([id, decision, IntText(expires), IntText(version)], COLON)
  }

  function MakeToken(id: string, decision: string, version: int, time: int, mac: Mac): string {
    var expires := time + TOKEN_EXPIRY;
    Join([id, decision, IntText(expires), IntText(version), mac(Message(id, decision, expires, version))], COLON)
  }

  /** token.split(":") */
  function SplitColons(s: string): (parts: seq<string>)
    ensures |parts| > 0
  {
    if s == "" then [""]
    else
      var rest := SplitColons(s[1..]);
      if s[0] == ':' then [""] + rest else [[s[0]] + rest[0]] + rest[1..]
  }

  function VerifyToken(token: string, time: int, mac: Mac): Option<Claim> {
    var parts := SplitColons(token);
    if |parts| == 4 then
      if !IsDecision(parts[1]) then None
      else
        match ParseInt(parts[2])
        case NotANumber => None
        case Number(expires) =>
          if time > expires || parts[3] != mac(LegacyMessage(parts[0], parts[1], expires)) then None
          else Some(Claim(parts[0], parts[1], None))
    else if |parts| == 5 then
      if !IsDecision(parts[1]) then None
      else
        match (ParseInt(parts[2]), ParseInt(parts[3]))
        case (Number(expires), Number(version)) =>
          if time > expires || parts[4] != mac(Message(parts[0], parts[1], expires, version)) then None
          else Some(Claim(parts[0], parts[1], Some(version)))
        case _ => None
    else None
  }

  // ---- Splitting undoes joining ----

  lemma {:induction false} SplitFront(a: string, rest: string)
    requires ColonFree(a)
    ensures SplitColons(a + (COLON + rest)) == [a] + SplitColons(rest)
    ensures SplitColons(a) == [a]
  {
    if a == "" {
      assert a + (COLON + rest) == COLON + rest;
      assert (COLON + rest)[1..] == rest;
    } else {
      SplitFront(a[1..], rest);
      assert (a + (COLON + rest))[1..] == a[1..] + (COLON + rest);
      assert [a[0]] + a[1..] == a;
      assert ([a[1..]] + SplitColons(rest))[1..] == SplitColons(rest);
    }
  }

  lemma {:induction false} SplitJoin(parts: seq<string>)
    requires |parts| > 0 && forall i | 0 <= i < |parts| :: ColonFree(parts[i])
    ensures SplitColons(Join(parts, COLON)) == parts
  {
    if |parts| == 1 {
      SplitFront(parts[0], "");
      assert parts == [parts[0]];
    } else {
      SplitJoin(parts[1..]);
      SplitFront(parts[0], Join(parts[1..], COLON));
      assert parts == [parts[0]] + parts[1..];
    }
  }

  lemma IntTextIsColonFree(n: int)
    ensures ColonFree(IntText(n))
  {
    IntTextParses(n);
    forall i | 0 <= i < |IntText(n)| ensures IntText(n)[i] != ':' {
      assert IntText(n)[i] in IntText(n);
    }
  }

  // ---- Round trip ----

  /** A minted token verifies, up to its expiry, to exactly what it was minted for, and to nothing afterwards. */
  lemma TokenRoundTrip(id: string, decision: string, version: int, minted: int, time: int, mac: Mac)
    requires ColonFree(id) && (decision == "approved" || decision == "rejected") && forall s :: ColonFree(mac(s))
    ensures VerifyToken(MakeToken(id, decision, version, minted, mac), time, mac)
         == if time <= minted + 48 * 3600 then Some(Claim(id, decision, Some(version))) else None
  {
    hide IntText, ParseInt, Message;
    var expires := minted + TOKEN_EXPIRY;
    IntTextIsColonFree(expires);
    IntTextIsColonFree(version);
    IntTextParses(expires);
    IntTextParses(version);
    SplitJoin([id, decision, IntText(expires), IntText(version), mac(Message(id, decision, expires, version))]);
  }

  /** The text of a token, field by field, valid for 48 hours. */
  lemma TokenText(id: string, decision: string, version: int, time: int, mac: Mac)
    ensures var signed := id + ":" + decision + ":" + IntText(time + 172800) + ":" + IntText(version);
            MakeToken(id, decision, version, time, mac) == signed + ":" + mac(signed)
  {
    hide IntText;
    var expires := IntText(time + 172800);
    JoinFour(id, decision, expires, IntText(version));
    JoinFive(id, decision, expires, IntText(version), mac(Message(id, decision, time + 172800, version)));
  }

  lemma JoinMore(a: string, parts: seq<string>)
    requires |parts| > 0
    ensures Join([a] + parts, COLON) == a + ":" + Join(parts, COLON)
  {
    assert ([a] + parts)[1..] == parts;
  }

  lemma JoinFour(a: string, b: string, c: string, d: string)
    ensures Join([a, b, c, d], COLON) == a + ":" + b + ":" + c + ":" + d
  {
    hide Join;
    JoinMore(a, [b, c, d]);
    JoinMore(b, [c, d]);
    JoinMore(c, [d]);
    JoinOne(d);
    assert [a] + [b, c, d] == [a, b, c, d] && [b] + [c, d] == [b, c, d] && [c] + [d] == [c, d];
    assert a + ":" + (b + ":" + (c + ":" + d)) == a + ":" + b + ":" + c + ":" + d;
  }

  lemma JoinOne(a: string)
    ensures Join([a], COLON) == a
  {
  }

  lemma JoinFive(a: string, b: string, c: string, d: string, e: string)
    ensures Join([a, b, c, d, e], COLON) == a + ":" + b + ":" + c + ":" + d + ":" + e
  {
    hide Join;
    JoinMore(a, [b, c, d, e]);
    JoinFour(b, c, d, e);
    assert [a] + [b, c, d, e] == [a, b, c, d, e];
    assert a + ":" + (b + ":" + c + ":" + d + ":" + e) == a + ":" + b + ":" + c + ":" + d + ":" + e;
  }

  /** A token of the legacy format verifies, up to its own expiry, to its claim without a version. */
  lemma LegacyRoundTrip(id: string, decision: string, expires: int, time: int, mac: Mac)
    requires ColonFree(id) && (decision == "approved" || decision == "rejected") && forall s :: ColonFree(mac(s))
    ensures var token := Join([id, decision, IntText(expires), mac(LegacyMessage(id, decision, expires))], COLON);
            VerifyToken(token, time, mac) == if time <= expires then Some(Claim(id, decision, None)) else None
  {
    hide IntText, ParseInt, LegacyMessage;
    IntTextIsColonFree(expires);
    IntTextParses(expires);
    SplitJoin([id, decision, IntText(expires), mac(LegacyMessage(id, decision, expires))]);
  }

  // ---- What an accepted token proves ----

  lemma {:induction false} SplitPartsAreColonFree(s: string, k: nat)
    requires k < |SplitColons(s)|
    ensures ColonFree(SplitColons(s)[k])
  {
    if s != "" {
      var rest := SplitColons(s[1..]);
      if s[0] == ':' {
        if k > 0 {
          SplitPartsAreColonFree(s[1..], k - 1);
        }
      } else {
        SplitPartsAreColonFree(s[1..], k);
      }
    }
  }

  /** The signature field of a token. */
  function Signature(token: string): string {
    var parts := SplitColons(token);
    parts[|parts| - 1]
  }

  /** The text an accepted token must have had signed. */
  function SignedText(claim: Claim, expires: int): string {
    match claim.version
    case None => LegacyMessage(claim.approvalId, claim.decision, expires)
    case Some(v) => Message(claim.approvalId, claim.decision, expires, v)
  }

  /** An accepted token carries the digest of its own claim with an expiry that has not passed. */
  lemma AcceptedIsSigned(token: string, time: int, mac: Mac) returns (expires: int)
    requires VerifyToken(token, time, mac).Some?
    ensures var claim := VerifyToken(token, time, mac).value;
            && time <= expires && (claim.decision == "approved" || claim.decision == "rejected")
            && ColonFree(claim.approvalId)
            && Signature(token) == mac(SignedText(claim, expires))
  {
    hide ParseInt, Message, LegacyMessage;
    SplitPartsAreColonFree(token, 0);
    expires := ParseInt(SplitColons(token)[2]).value;
  }

  /** Signed texts differ for different claims: no field can be traded for another, nor a version dropped. */
  lemma SignedTextInjective(a: Claim, m: int, b: Claim, n: int)
    requires ColonFree(a.approvalId) && IsDecision(a.decision) && ColonFree(b.approvalId) && IsDecision(b.decision)
    requires SignedText(a, m) == SignedText(b, n)
    ensures a == b && m == n
  {
    SignedParts(a, m);
    SignedParts(b, n);
    var p, q := SplitColons(SignedText(a, m)), SplitColons(SignedText(b, n));
    assert |p| == |q| && p[0] == q[0] && p[1] == q[1] && p[2] == q[2];
    IntTextParses(m);
    IntTextParses(n);
    if a.version.Some? {
      assert p[3] == q[3];
      IntTextParses(a.version.value);
      IntTextParses(b.version.value);
    }
  }

  lemma SignedParts(a: Claim, m: int)
    requires ColonFree(a.approvalId) && IsDecision(a.decision)
    ensures SplitColons(SignedText(a, m)) ==
            [a.approvalId, a.decision, IntText(m)] + (if a.version.Some? then [IntText(a.version.value)] else [])
  {
    hide IntText;
    IntTextIsColonFree(m);
    if a.version.Some? {
      IntTextIsColonFree(a.version.value);
      SplitJoin([a.approvalId, a.decision, IntText(m), IntText(a.version.value)]);
    } else {
      SplitJoin([a.approvalId, a.decision, IntText(m)]);
    }
  }

  /**
    Two accepted tokens with one signature make the same claim, in either format, unless the digests of the
    two texts they claim collide.
   */
  lemma SameSignatureSameClaim(t: string, u: string, time: int, later: int, mac: Mac) returns (m: int, n: int)
    requires VerifyToken(t, time, mac).Some? && VerifyToken(u, later, mac).Some? && Signature(t) == Signature(u)
    ensures var a, b := VerifyToken(t, time, mac).value, VerifyToken(u, later, mac).value;
            a == b || (SignedText(a, m) != SignedText(b, n) && mac(SignedText(a, m)) == mac(SignedText(b, n)))
  {
    hide VerifyToken, SignedText;
    m := AcceptedIsSigned(t, time, mac);
    n := AcceptedIsSigned(u, later, mac);
    var a, b := VerifyToken(t, time, mac).value, VerifyToken(u, later, mac).value;
    if SignedText(a, m) == SignedText(b, n) {
      SignedTextInjective(a, m, b, n);
    }
  }
}
