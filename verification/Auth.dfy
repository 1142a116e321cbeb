/** Authentication, up to the signal that the connection is initialized (src/vncconnection.c). */
module Auth {
  import opened Bytes
  import opened Feed
  import opened Input
  import opened Options

  const INVALID := 0
  const NONE := 1
  const VNC := 2
  const TLS := 18
  const VENCRYPT := 19
  const SASL := 20
  const ARD := 30
  const MSLOGONII := 0x71
  const MSLOGON := 0xFFFF_FFFA
  const VENCRYPT_PLAIN := 256
  const VENCRYPT_TLSNONE := 257
  const VENCRYPT_TLSVNC := 258
  const VENCRYPT_TLSPLAIN := 259
  const VENCRYPT_X509NONE := 260
  const VENCRYPT_X509VNC := 261
  const VENCRYPT_X509SASL := 263
  const VENCRYPT_TLSSASL := 264

  const REASON_MAX := 1023
  const MECHLIST_MAX := 300
  const SASL_DATA_MAX := 1024 * 1024

  /* The server's verdict (section 7.1.3 of RFC 6143). */

  /** `vnc_connection_check_auth_result`: what it returns, and the input it leaves. */
  function AuthResult(f: Feed, minor: int): (bool, Feed)
  {
    var (result, s1) := TakeU32(f);
    if result == 0 then (true, s1)
    else if minor < 8 then (false, Dead)
    else
      var (len, s2) := TakeU32(s1);
      (false, if REASON_MAX < len then s2 else Dead)
  }

  /** The server says that authentication succeeded. */
  predicate Grants(f: Feed)
  {
    f.Live? && 4 <= |f.rest| && U32(f.rest[..4]) == 0
  }

  /** The server refuses, with a reason longer than the buffer for it. */
  predicate RefusesAtLength(f: Feed, minor: int)
  {
    8 <= minor && f.Live? && 8 <= |f.rest| && U32(f.rest[..4]) != 0 && 1023 < U32(f.rest[4..8])
  }

  /**
   * Success with the connection still up means that the server granted it;
   * and a failure leaves the connection up exactly if the reason is over-long.
   */
  lemma AuthResultMeans(f: Feed, minor: int)
    ensures var (ok, g) := AuthResult(f, minor);
            (ok && g.Live? <==> Grants(f)) && (!ok && g.Live? <==> RefusesAtLength(f, minor))
  {
    if f.Live? && 8 <= |f.rest| {
      assert f.rest[4..][..4] == f.rest[4..8];
    }
  }

  /** How a server that offers no security types says why (section 7.1.2 of RFC 6143). */
  function EncodeRefusal(reason: seq<byte>): seq<byte>
    requires |reason| < 0x1_0000_0000
  {
    EncU32(|reason|) + reason
  }

  /**
   * Of a refusal without security types the client reads the length of the
   * reason as the result, and the text as the length of a reason.  It takes an
   * empty reason for success.  And the connection survives the refusal exactly
   * if the reason is empty or, in protocol 3.8, the first four bytes that
   * follow its length make a number above 1023.
   */
  lemma RefusalOutcome(reason: seq<byte>, rest: seq<byte>, minor: int)
    requires |reason| < 0x1_0000_0000
    ensures var (ok, g) := AuthResult(Live(EncodeRefusal(reason) + rest), minor);
            && (ok <==> reason == [])
            && (g.Live? <==> reason == [] || (8 <= minor && 4 <= |reason + rest| && 1023 < U32((reason + rest)[..4])))
  {
    hide U32, EncU32;
    Append(EncU32(|reason|), reason, rest);
    TakeU32Prefix(|reason|, reason + rest);
  }

  /** Any text of four characters or more, followed by anything, is such a number. */
  lemma TextSurvives(reason: seq<byte>, rest: seq<byte>)
    requires 4 <= |reason| < 0x1_0000_0000 && reason[0] != 0
    ensures AuthResult(Live(EncodeRefusal(reason) + rest), 8).1.Live?
  {
    RefusalOutcome(reason, rest, 8);
    assert (reason + rest)[..4][..2][0] == reason[0];
  }

  /** What the main loop does for the user when the coroutine lets it run. */
  datatype Answer =
    | GiveUsername | GivePassword | GiveCertificates | ClearUsername | ClearPassword
    | ChooseType(authType: int) | ChooseSubtype(subtype: int) | UnknownCredential | Shutdown

  /** Whether something is set after a series of answers, some of which give and some of which clear it. */
  function IsLeft(batch: seq<Answer>, give: Answer, clear: Answer, had: bool): bool
  {
    if batch == [] then had
    else
      var last := batch[|batch| - 1];
      if last == give then true else if last == clear then false else IsLeft(batch[..|batch| - 1], give, clear, had)
  }

  /** It is cleared and not given again. */
  ghost predicate Drops(batch: seq<Answer>, give: Answer, clear: Answer)
  {
    exists i :: DropsAt(batch, i, give, clear)
  }

  predicate DropsAt(batch: seq<Answer>, i: int, give: Answer, clear: Answer)
  {
    0 <= i < |batch| && batch[i] == clear && forall j :: i < j < |batch| ==> batch[j] != give
  }

  lemma {:induction false} LeftUnlessDropped(batch: seq<Answer>, give: Answer, clear: Answer)
    requires give != clear
    ensures IsLeft(batch, give, clear, true) <==> !Drops(batch, give, clear)
  {
    if batch != [] {
      LeftUnlessDropped(batch[..|batch| - 1], give, clear);
      DropsMore(batch, give, clear);
      hide Drops;
    }
  }

  lemma DropsMore(batch: seq<Answer>, give: Answer, clear: Answer)
    requires batch != [] && give != clear
    ensures var last := batch[|batch| - 1];
            Drops(batch, give, clear) <==> last == clear || (last != give && Drops(batch[..|batch| - 1], give, clear))
  {
    var n := |batch| - 1;
    forall i
      ensures DropsAt(batch, i, give, clear) <==> if i == n then batch[n] == clear else batch[n] != give && DropsAt(batch[..n], i, give, clear)
    {
      DropsAtMore(batch, i, give, clear);
    }
    hide DropsAt;
    if batch[n] == clear {
      assert DropsAt(batch, n, give, clear);
    } else if batch[n] != give && Drops(batch[..n], give, clear) {
      var i :| DropsAt(batch[..n], i, give, clear);
      BelowLength(batch[..n], i, give, clear);
      assert DropsAt(batch, i, give, clear);
    }
  }

  lemma BelowLength(batch: seq<Answer>, i: int, give: Answer, clear: Answer)
    requires DropsAt(batch, i, give, clear)
    ensures i < |batch|
  {
  }

  lemma DropsAtMore(batch: seq<Answer>, i: int, give: Answer, clear: Answer)
    requires batch != []
    ensures var n := |batch| - 1;
            DropsAt(batch, i, give, clear) <==> if i == n then batch[n] == clear else batch[n] != give && DropsAt(batch[..n], i, give, clear)
  {
    var n := |batch| - 1;
    if 0 <= i < n {
      assert forall j :: i < j < n ==> batch[..n][j] == batch[j];
    }
  }

  lemma {:induction false} LeftTwice(a: seq<Answer>, b: seq<Answer>, give: Answer, clear: Answer, had: bool)
    ensures IsLeft(a + b, give, clear, had) == IsLeft(b, give, clear, IsLeft(a, give, clear, had))
    decreases |b|
  {
    if b == [] {
      assert a + b == a;
    } else {
      assert (a + b)[..|a + b| - 1] == a + b[..|b| - 1];
      LeftTwice(a, b[..|b| - 1], give, clear, had);
    }
  }

  /** The first `n` of a series of batches, one after the other. */
  function Brought(batches: seq<seq<Answer>>, n: nat): seq<Answer>
  {
    if n == 0 || batches == [] then [] else batches[0] + Brought(batches[1..], n - 1)
  }

  lemma {:induction false} BroughtMore(batches: seq<seq<Answer>>, n: nat)
    ensures Brought(batches, 0) == []
    ensures Brought(batches, n + 1) == Brought(batches, n) + if n < |batches| then batches[n] else []
  {
    if n != 0 && batches != [] {
      BroughtMore(batches[1..], n - 1);
    }
  }

  lemma BroughtFirst(batches: seq<seq<Answer>>)
    ensures Brought(batches, 1) == if batches == [] then [] else batches[0]
  {
    BroughtMore(batches, 0);
  }

  /** Between the check that credentials are there and their use: a wait, and a number of reads. */
  datatype Trace = Trace(waited: bool, pauses: nat)

  /** What the main loop has brought in that time. */
  function Between(gap: seq<Answer>, pauses: seq<seq<Answer>>, use: Trace): seq<Answer>
  {
    (if use.waited then gap else []) + Brought(pauses, use.pauses)
  }

  lemma BetweenMore(gap: seq<Answer>, pauses: seq<seq<Answer>>, use: Trace)
    ensures Between(gap, pauses, use.(pauses := use.pauses + 1))
         == Between(gap, pauses, use) + if use.pauses < |pauses| then pauses[use.pauses] else []
  {
    BroughtMore(pauses, use.pauses);
  }

  lemma LeftMore(batch: seq<Answer>, n: nat, give: Answer, clear: Answer, had: bool)
    requires n < |batch|
    ensures IsLeft(batch[..0], give, clear, had) == had
    ensures IsLeft(batch[..n + 1], give, clear, had) ==
              if batch[n] == give then true else if batch[n] == clear then false else IsLeft(batch[..n], give, clear, had)
  {
    assert batch[..n + 1][..n] == batch[..n];
  }

  /**
   * The calls that set an error in the main coroutine, whose yield then resumes
   * the coroutine wherever it is: WaitQueues.SetErrorSpoils says what follows.
   */
  predicate Misuse(a: Answer, authType: int, authSubtype: int)
  {
    match a
    case ChooseType(t) => authType != 0 || t !in {1, 2, 18, 19, 20, 30, 113, 0xFFFF_FFFA}
    case ChooseSubtype(_) => (authType != 18 && authType != 19) || authSubtype != 0
    case UnknownCredential => true
    case _ => false
  }

  /** Where the server's numbers hold the modulus: after the generator and a length of two bytes each ... */
  function ArdModulus(f: Feed): seq<byte>
  {
    var (gen, s1) := Take(f, 2);
    var (len, s2) := Take(s1, 2);
    Take(s2, U16(len)).0
  }

  /** ... or after a generator of eight. */
  function MsLogonModulus(f: Feed): seq<byte>
  {
    Take(Take(f, 8).1, 8).0
  }

  /* Where an exchange leaves the input, by the numbers of the security types. */

  /** The input behind `n` bytes. */
  function Skip(f: Feed, n: nat): Feed
  {
    Take(f, n).1
  }

  lemma SkipTwice(f: Feed, a: nat, b: nat)
    ensures Skip(Skip(f, a), b) == Skip(f, a + b)
  {
    if f.Live? && a + b <= |f.rest| {
      assert f.rest[a..][b..] == f.rest[a + b..];
    }
  }

  lemma ByteFirst(f: Feed)
    ensures ByteAt(f, 0) == Take(f, 1).0[0]
  {
    SkipNothing(f);
  }

  /** Without a byte in between. */
  lemma SkipNothing(f: Feed)
    ensures Skip(f, 0) == f
  {
    if f.Live? {
      assert f.rest[0..] == f.rest;
    }
  }

  function ByteAt(f: Feed, at: nat): int
  {
    Take(Skip(f, at), 1).0[0]
  }

  /** Behind a length of four bytes, and as many bytes. */
  function BehindText(f: Feed): Feed
  {
    Skip(Skip(f, 4), U32(Take(f, 4).0))
  }

  /** Behind `n` replies of an exchange: data, and a byte that says whether it is complete. */
  function BehindReplies(f: Feed, n: nat): Feed
  {
    if n == 0 then f else Skip(BehindText(BehindReplies(f, n - 1)), 1)
  }

  predicate Completes(f: Feed, n: nat)
    requires 0 < n
  {
    Take(BehindText(BehindReplies(f, n - 1)), 1).0[0] != 0
  }

  lemma OneReplyMore(f: Feed, n: nat)
    ensures BehindReplies(BehindReplies(f, n), 1) == BehindReplies(f, n + 1)
    ensures Completes(BehindReplies(f, n), 1) <==> Completes(f, n + 1)
  {
    hide BehindText;
    assert BehindReplies(BehindReplies(f, n), 0) == BehindReplies(f, n);
  }

  /** A reply of more than a mebibyte, or a list of mechanisms of more than 300 bytes. */
  ghost predicate OverlongReply(f: Feed)
  {
    exists n: nat :: OverlongAt(f, n)
  }

  predicate OverlongAt(f: Feed, n: nat)
  {
    0x10_0000 < U32(Take(BehindReplies(f, n), 4).0)
  }

  lemma NextNotOverlong(f: Feed, n: nat)
    ensures NoneOverlong(f, 0)
    ensures NoneOverlong(f, n) && !OverlongAt(BehindReplies(f, n), 0) ==> NoneOverlong(f, n + 1)
  {
    assert BehindReplies(BehindReplies(f, n), 0) == BehindReplies(f, n);
  }

  lemma NoReplies(f: Feed)
    ensures BehindReplies(f, 0) == f
  {
  }

  lemma ReplyOverlong(f: Feed, n: nat)
    requires OverlongAt(BehindReplies(f, n), 0)
    ensures OverlongReply(f)
  {
    assert BehindReplies(BehindReplies(f, n), 0) == BehindReplies(f, n);
    assert OverlongAt(f, n);
  }

  ghost predicate OverlongSasl(f: Feed)
  {
    300 < U32(Take(f, 4).0) || OverlongReply(BehindText(f))
  }

  /** The client's version of the protocol: the greatest it knows that is not above the server's. */
  predicate AtMost(minor: int, server: (int, int))
  {
    3 < server.0 || (server.0 == 3 && minor <= server.1)
  }

  predicate Agreed(minor: int, server: Option<(int, int)>)
  {
    server.Some? && minor in {3, 7, 8} && AtMost(minor, server.value) && forall m :: m in {3, 7, 8} && minor < m ==> !AtMost(m, server.value)
  }

  ghost predicate NoneAgreed(server: Option<(int, int)>)
  {
    forall m :: !Agreed(m, server)
  }

  /** The list of types as it is sent, in bytes or in words of four. */
  ghost predicate Lists(types: seq<int>, f: Feed, width: nat)
  {
    forall i {:trigger types[i]} :: 0 <= i < |types| ==>
      types[i] == if width == 1 then ByteAt(f, i) else U32(Take(Skip(f, 4 * i), 4).0)
  }

  predicate Zero(digits: seq<byte>)
  {
    digits == Zeros(|digits|)
  }

  /** What the client tells the server; what is encrypted is known by what it answers. */
  datatype Sent =
    | Version(minor: int) | Choice(authType: int) | Agrees(vmajor: int, vminor: int) | Subchoice(subtype: int)
    | Response(challenge: seq<byte>) | UserAndPassword | Reply(generator: seq<byte>, modulus: seq<byte>, key: seq<byte>)
    | SaslBegin | SaslNext | Shared

  /** The answers to the two exchanges of keys. */
  function MsLogonReply(f: Feed): Sent
  {
    Reply(Take(f, 8).0, MsLogonModulus(f), Take(Skip(f, 16), 8).0)
  }

  function ArdReply(f: Feed): Sent
  {
    var n := U16(Take(Skip(f, 2), 2).0);
    Reply(Take(f, 2).0, ArdModulus(f), Take(Skip(f, 4 + n), n).0)
  }

  /** One message to every reply. */
  function SaslSent(n: nat): seq<Sent>
  {
    if n == 0 then [] else SaslSent(n - 1) + [if n == 1 then SaslBegin else SaslNext]
  }

  lemma SaslSentMore(b: seq<Sent>, n: nat)
    ensures SaslSent(n + 1) == SaslSent(n) + [if n == 0 then SaslBegin else SaslNext]
    ensures b + SaslSent(n + 1) == (b + SaslSent(n)) + [if n == 0 then SaslBegin else SaslNext] && b + SaslSent(0) == b
  {
  }

  /** What bears on which exchange has been run, and how. */
  datatype Deeds = Deeds(minor: int, authType: int, authSubtype: int, offered: seq<int>, offeredSub: seq<int>,
                         wantUsername: bool, wantPassword: bool, wantX509: bool, asked: seq<Feed>, refused: bool, sent: seq<Sent>) {

    predicate Wants(needsUsername: bool, needsPassword: bool)
    {
      wantUsername == needsUsername && wantPassword == needsPassword && !wantX509
    }

    predicate SameWants(d: Deeds)
    {
      wantUsername == d.wantUsername && wantPassword == d.wantPassword && wantX509 == d.wantX509
    }

    /** Nothing of this has changed, but for a choice that had not been made. */
    predicate Persists(later: Deeds)
    {
      && later == this.(authType := later.authType, authSubtype := later.authSubtype)
      && (authType != 0 ==> later.authType == authType && (authSubtype != 0 ==> later.authSubtype == authSubtype))
    }
  }

  /* What an exchange that starts at `f` has wanted, and where it has d.asked for the result. */

  ghost predicate RanNone(d: Deeds, b: seq<Sent>, f: Feed, checked: bool)
  {
    d.asked == (if checked then [f] else []) && !d.wantUsername && !d.wantPassword && d.sent == b
  }

  ghost predicate RanVnc(d: Deeds, b: seq<Sent>, f: Feed)
  {
    d.asked == [Skip(f, 16)] && d.Wants(false, true) && d.sent == b + [Response(Take(f, 16).0)]
  }

  ghost predicate RanPlain(d: Deeds, b: seq<Sent>, f: Feed)
  {
    d.asked == [f] && d.Wants(true, true) && d.sent == b + [UserAndPassword]
  }

  ghost predicate RanMsLogon(d: Deeds, b: seq<Sent>, f: Feed)
  {
    d.asked == [Skip(f, 24)] && d.Wants(true, true) && !Zero(MsLogonModulus(f)) && d.sent == b + [MsLogonReply(f)]
  }

  ghost predicate RanArd(d: Deeds, b: seq<Sent>, f: Feed)
  {
    d.asked == [Skip(f, 4 + 2 * U16(Take(Skip(f, 2), 2).0))] && d.Wants(true, true) && d.sent == b + [ArdReply(f)]
  }

  /** Behind the list of mechanisms and the replies, none too long, of which the last is complete. */
  ghost predicate RanSasl(d: Deeds, b: seq<Sent>, f: Feed)
  {
    U32(Take(f, 4).0) <= 300 && exists n :: Exchanged(BehindText(f), n) && d.asked == [BehindReplies(BehindText(f), n)] && d.sent == b + SaslSent(n)
  }

  ghost predicate Exchanged(f: Feed, n: nat)
  {
    0 < n && Completes(f, n) && NoneOverlong(f, n)
  }

  ghost predicate NoneOverlong(f: Feed, n: nat)
  {
    forall k :: 0 <= k < n ==> !OverlongAt(f, k)
  }

  /** What an exchange that starts at `f` takes exception to, apart from the result. */
  ghost predicate Objects(d: Deeds, f: Feed)
  {
    match d.authType
    case 18 =>
      || d.minor < 7
      || (ByteAt(f, 0) != 0 && (80 < ByteAt(f, 0) || d.authSubtype !in {1, 2, 20}))
      || (ByteAt(f, 0) != 0 && d.authSubtype == 20 && OverlongSasl(Skip(f, 1 + ByteAt(f, 0))))
    case 19 =>
      Ill(d, f) || ByteAt(f, 4 + 4 * ByteAt(f, 3)) != 1
      || (263 <= d.authSubtype && OverlongSasl(Skip(f, 5 + 4 * ByteAt(f, 3))))
    case 20 => OverlongSasl(f)
    case 113 => Zero(MsLogonModulus(f))
    case 0xFFFF_FFFA => Zero(MsLogonModulus(f))
    case _ => d.authType !in {1, 2, 30}
  }

  /** ... the list of types included. */
  ghost predicate ObjectsToTypes(d: Deeds, f: Feed)
  {
    if d.minor <= 6 then Objects(d, Skip(f, 4)) else 40 < ByteAt(f, 0) || Objects(d, Skip(f, 1 + ByteAt(f, 0)))
  }

  /** Its part before the subtype is announced to the server, for VeNCrypt. */
  ghost predicate Ill(d: Deeds, f: Feed)
  {
    || (ByteAt(f, 0) != 0 && ByteAt(f, 1) != 2) || ByteAt(f, 2) != 0 || 20 < ByteAt(f, 3)
    || !(256 <= d.authSubtype <= 264)
  }

  ghost predicate RanTls(d: Deeds, b: seq<Sent>, f: Feed)
  {
    if ByteAt(f, 0) == 0 then d.asked == [Skip(f, 1)] && d.refused && d.sent == b
    else
      && !d.refused && |d.offeredSub| == ByteAt(f, 0) <= 80 && Lists(d.offeredSub, Skip(f, 1), 1)
      && RanTlsSubtype(d, b + [Choice(d.authSubtype)], Skip(f, 1 + ByteAt(f, 0)))
  }

  ghost predicate RanTlsSubtype(d: Deeds, b: seq<Sent>, f: Feed)
  {
    match d.authSubtype
    case 1 => RanNone(d, b, f, d.minor == 8)
    case 2 => RanVnc(d, b, f)
    case 20 => RanSasl(d, b, f)
    case _ => false
  }

  ghost predicate RanVencrypt(d: Deeds, b: seq<Sent>, f: Feed, hadTls: bool)
  {
    && !d.refused && !Ill(d, f) && ByteAt(f, 4 + 4 * ByteAt(f, 3)) == 1
    && |d.offeredSub| == ByteAt(f, 3) && Lists(d.offeredSub, Skip(f, 4), 4)
    && RanVencryptSubtype(d, b + [Agrees(ByteAt(f, 0), ByteAt(f, 1))] + [Subchoice(d.authSubtype)], Skip(f, 5 + 4 * ByteAt(f, 3)), hadTls)
  }

  ghost predicate RanVencryptSubtype(d: Deeds, b: seq<Sent>, f: Feed, hadTls: bool)
  {
    match d.authSubtype
    case 256 => RanPlain(d, b, f)
    case 257 => RanNone(d, b, f, true)
    case 258 => RanVnc(d, b, f)
    case 259 => RanPlain(d, b, f)
    case 260 => RanNone(d, b, f, true) && (d.wantX509 || hadTls)
    case 261 => RanVnc(d, b, f)
    case 262 => RanPlain(d, b, f)
    case 263 => RanSasl(d, b, f)
    case 264 => RanSasl(d, b, f)
    case _ => false
  }

  ghost predicate RanChosen(d: Deeds, b: seq<Sent>, f: Feed, hadTls: bool)
  {
    && (d.authType != 18 ==> !d.refused)
    && match d.authType
       case 1 => RanNone(d, b, f, d.minor == 8)
       case 2 => RanVnc(d, b, f)
       case 18 => 7 <= d.minor && RanTls(d, b, f)
       case 19 => RanVencrypt(d, b, f, hadTls)
       case 20 => RanSasl(d, b, f)
       case 30 => RanArd(d, b, f)
       case 113 => RanMsLogon(d, b, f)
       case 0xFFFF_FFFA => RanMsLogon(d, b, f)
       case _ => false
  }

  /** All of it: the list of types, and the exchange of the one chosen. */
  ghost predicate RanAuth(d: Deeds, b: seq<Sent>, f: Feed, hadTls: bool)
  {
    if 6 < d.minor && ByteAt(f, 0) == 0 then d.asked == [Skip(f, 1)] && d.refused && d.sent == b
    else if 6 < d.minor then
      && |d.offered| == ByteAt(f, 0) <= 40 && Lists(d.offered, Skip(f, 1), 1)
      && RanChosen(d, b + [Choice(d.authType)], Skip(f, 1 + ByteAt(f, 0)), hadTls)
    else
      && |d.offered| == 1 && Lists(d.offered, f, 4)
      && RanChosen(d, b, Skip(f, 4), hadTls)
  }

  /** No exchange runs that is objected to: the objections are no wider than that, but for replies that are never read. */
  lemma RunsUnlessObjecting(d: Deeds, b: seq<Sent>, f: Feed, hadTls: bool)
    requires RanChosen(d, b, f, hadTls) && forall at: nat :: !OverlongReply(BehindText(Skip(f, at)))
    ensures !Objects(d, f)
  {
    hide OverlongReply, BehindText, Take, U16, U32, Skip, BehindReplies, Completes, NoneOverlong;
    SkipNothing(f);
    assert !OverlongReply(BehindText(Skip(f, 0)));
    match d.authType
    case 18 => assert !OverlongReply(BehindText(Skip(f, 1 + ByteAt(f, 0))));
    case 19 => assert !OverlongReply(BehindText(Skip(f, 5 + 4 * ByteAt(f, 3))));
    case _ =>
  }

  lemma ListedUnlessObjecting(d: Deeds, b: seq<Sent>, f: Feed, hadTls: bool)
    requires RanAuth(d, b, f, hadTls) && !(6 < d.minor && ByteAt(f, 0) == 0)
    requires forall at: nat :: !OverlongReply(BehindText(Skip(f, at)))
    ensures !ObjectsToTypes(d, f)
  {
    hide OverlongReply, BehindText, Take, Skip, RanChosen, Objects, Lists;
    var at := if 6 < d.minor then 1 + ByteAt(f, 0) else 4;
    forall more: nat
      ensures !OverlongReply(BehindText(Skip(Skip(f, at), more)))
    {
      SkipTwice(f, at, more);
    }
    RunsUnlessObjecting(d, if 6 < d.minor then b + [Choice(d.authType)] else b, Skip(f, at), hadTls);
  }

  lemma RanStays(d: Deeds, later: Deeds, b: seq<Sent>, f: Feed, hadTls: bool)
    requires RanAuth(d, b, f, hadTls) && d.Persists(later)
    ensures RanAuth(later, b, f, hadTls)
  {
    hide Skip, ByteAt, Take, U16, U32, RanSasl, Lists;
    RanSaslStays(d, later);
  }

  lemma RanSaslStays(d: Deeds, later: Deeds)
    requires later.asked == d.asked && later.sent == d.sent
    ensures forall b, f :: RanSasl(d, b, f) ==> RanSasl(later, b, f)
  {
    hide BehindText, BehindReplies, Completes;
  }

  datatype Step = Ok | Continue | Interact(needsUsername: bool, needsPassword: bool) | Fail

  datatype Signal = Connected | Initialized | Disconnected

  predicate Supported(authType: int)
  {
    authType in {NONE, VNC, MSLOGON, MSLOGONII, ARD, TLS, VENCRYPT, SASL}
  }

  /** What is on the wire once the version has been sent, `partial` times its start having gone before. */
  function Greeting(version: seq<byte>, partial: nat): seq<byte>
    requires |version| == 12
  {
    if partial == 0 then version else Starts(version, partial) + version[4..]
  }

  function Starts(version: seq<byte>, partial: nat): seq<byte>
    requires |version| == 12
  {
    if partial == 0 then [] else version[..4] + Starts(version, partial - 1)
  }

  lemma {:induction false} StartsLength(version: seq<byte>, partial: nat)
    requires |version| == 12
    ensures |Starts(version, partial)| == 4 * partial
  {
    if partial != 0 {
      StartsLength(version, partial - 1);
    }
  }

  /** The server gets a well-formed greeting exactly if it was started early at most once. */
  lemma GreetingWhole(version: seq<byte>, partial: nat)
    requires |version| == 12
    ensures Greeting(version, partial) == version <==> partial <= 1
  {
    StartsLength(version, partial);
    if partial == 1 {
      assert Starts(version, 1) == version[..4] + [];
      assert version == version[..4] + version[4..];
    }
  }

  class Handshake {
    const rd: Reader
    const parseVersion: seq<byte> -> Option<(int, int)>      // sscanf
    var major: int
    var minor: int
    var partial: nat                       // early starts of the greeting
    var authType: int
    var authSubtype: int
    var offered: seq<int>                  // the types the server offers,
    var offeredSub: seq<int>               // and the subtypes
    var wantUsername: bool
    var wantPassword: bool
    var wantX509: bool
    var username: bool                     // set
    var password: bool
    var x509: bool
    var tls: bool                          // tls_session != NULL
    var user: seq<seq<Answer>>             // what each visit to the main loop brings
    var gaps: seq<seq<Answer>>             // what comes between the last check of each wait and its end
    var pauses: seq<seq<Answer>>           // what comes while a read, a flush, a handshake or a signal waits
    var library: seq<bool>                 // whether each further call of gnutls, libgcrypt, SASL or the socket succeeds
    var sasl: seq<Step>                    // what each further SASL step says
    var crashed: bool                      // from here on the program does anything
    var signals: seq<Signal>
    var sent: seq<Sent>                    // what the server has been told
    ghost var asked: seq<Feed>             // the input at each check for a result
    ghost var refused: bool                // ... which follows a refusal, no types being offered
    ghost var missed: bool                 // a credential was found missing, which sets no error
    ghost var misused: bool                // an error was set in the main coroutine
    ghost var nulled: bool                 // the length of a missing credential was taken
    ghost var zeroed: bool                 // a number was taken modulo zero
    ghost var initAt: Option<Feed>         // the input where the server's name for the desktop was awaited
    ghost var excused: bool                // the user, a library or the end of the input has ended the connection

    ghost function Input(): Feed
      requires rd.Usable()
      reads rd.Repr()
    {
      rd.In()
    }

    ghost predicate Valid()
      reads this, rd.Repr()
    {
      rd.Usable() && this !in rd.Repr() && (crashed <==> misused || nulled || zeroed)
    }

    /** As a connection starts. */
    ghost predicate Fresh()
      reads this
    {
      asked == [] && !refused && !missed && !nulled && !zeroed && initAt == None
    }

    /** The connection stays down once it is down, and so does the program; a choice once made stays. */
    twostate predicate Onward()
      reads this, rd.Repr()
    {
      && Valid() && (old(rd.stop) ==> rd.stop) && minor == old(minor) && signals == old(signals)
      && (old(crashed) ==> crashed) && (old(misused) ==> misused) && (old(excused) ==> excused)
      && (old(authType) != INVALID ==> authType == old(authType))
      && (old(authType) != INVALID && old(authSubtype) != INVALID ==> authSubtype == old(authSubtype))
    }

    /** No result has been asked for, and no credential used. */
    twostate predicate Unasked()
      reads this, rd.Repr()
    {
      && Onward() && asked == old(asked) && refused == old(refused)
      && missed == old(missed) && nulled == old(nulled) && zeroed == old(zeroed)
    }

    /** As Unasked, but for a missing credential that may have been followed, */
    twostate predicate Asking()
      reads this, rd.Repr()
    {
      Onward() && asked == old(asked) && refused == old(refused) && missed == old(missed) && zeroed == old(zeroed)
    }

    /** ... or a modulus that may have been zero. */
    twostate predicate Computing()
      reads this, rd.Repr()
    {
      Onward() && asked == old(asked) && refused == old(refused) && missed == old(missed) && nulled == old(nulled)
    }

    /** The client goes without a result, as a type without authentication lets it before protocol 3.8. */
    ghost predicate Waived(offers: bool)
      reads this
    {
      && asked == [] && minor != 8
      && if authType == TLS then authSubtype == NONE && (NONE in offeredSub) == offers
         else authType == NONE && (NONE in offered) == offers
    }

    /**
     * While the connection is up the input is where it was, or `n` bytes
     * further; and if it has gone down, that was none of the client's doing,
     * unless something is wrong with what the server has sent.
     */
    twostate predicate TookUnless(n: nat, wrong: bool)
      reads this, rd.Repr()
    {
      && rd.Usable() && old(rd.Usable()) && (!rd.stop ==> Input() == Skip(old(Input()), n))
      && (rd.stop ==> old(rd.stop) || excused || wrong)
    }

    twostate predicate Took(n: nat)
      reads this, rd.Repr()
    {
      TookUnless(n, false)
    }

    twostate predicate Still()
      reads this, rd.Repr()
    {
      && rd.Usable() && old(rd.Usable()) && (!rd.stop ==> Input() == old(Input()))
      && (rd.stop ==> old(rd.stop) || excused)
    }

    /** The server has refused, or its answer is incomplete. */
    ghost predicate TurnedDown()
      reads this
    {
      asked != [] && AuthResult(asked[0], minor).1 == Dead
    }

    ghost function Done(): Deeds
      reads this
    {
      Deeds(minor, authType, authSubtype, offered, offeredSub, wantUsername, wantPassword, wantX509, asked, refused, sent)
    }

    /** The connection is up, the program has not crashed, and no credential was found missing. */
    ghost predicate Well()
      reads this, rd
    {
      !rd.stop && !crashed && !missed
    }

    /** The server granted access, or offered a type that needs no grant. */
    ghost predicate Accepted()
      reads this
    {
      (asked != [] && !refused && Grants(asked[|asked| - 1])) || Waived(true)
    }

    /** The server refused, with an empty reason. */
    ghost predicate RefusedSilently()
      reads this
    {
      asked != [] && refused && Grants(asked[|asked| - 1])
    }

    /** The server refused, or what it sent after refusing, reads as an over-long reason. */
    ghost predicate OverLong()
      reads this
    {
      asked != [] && RefusesAtLength(asked[|asked| - 1], minor)
    }

    /**
     * What a step of the machine returns is settled while the connection is up:
     * it succeeds if the server accepted, if it refused with an empty reason,
     * or if the user chose to go without authentication though that was not
     * offered; it fails exactly on the over-long refusal and on a credential
     * found missing.
     */
    ghost predicate LongName()
      reads this
    {
      initAt.Some? && 4096 < U32(Take(Skip(initAt.value, 20), 4).0)
    }

    ghost predicate Settled(ok: bool)
      reads this, rd.Repr()
    {
      !crashed && !rd.stop ==>
        (ok ==> Accepted() || RefusedSilently() || Waived(false)) && (!ok <==> OverLong() || missed)
    }

    /**
     * The server accepted, or one of four cases: it refused with an empty
     * reason; it refused and what it sent reads as an over-long reason; the user
     * chose to go without authentication though that was not offered; a
     * credential was found missing.
     */
    ghost predicate LetIn()
      reads this
    {
      Accepted() || RefusedSilently() || OverLong() || Waived(false) || missed
    }

    lemma Settles(ok: bool)
      requires rd.stop || crashed || (missed && !ok)
      ensures Settled(ok) && !Well()
    {
    }

    /** As authentication left it: the shared flag has been sent if the name for the desktop is awaited. */
    ghost function BeforeInit(): Deeds
      reads this
    {
      if initAt.None? || sent == [] || sent[|sent| - 1] != Shared then Done()
      else Done().(sent := sent[..|sent| - 1])
    }

    constructor (rd: Reader, parseVersion: seq<byte> -> Option<(int, int)>, user: seq<seq<Answer>>, gaps: seq<seq<Answer>>,
                 pauses: seq<seq<Answer>>, library: seq<bool>, sasl: seq<Step>)
      requires rd.Usable()
      ensures Valid() && Fresh() && !crashed && !wantUsername && !wantPassword && this.rd == rd && signals == []
      ensures this.user == user && this.gaps == gaps && this.pauses == pauses && this.library == library && this.sasl == sasl
      ensures this.parseVersion == parseVersion
    {
      this.rd, this.parseVersion, this.user, this.gaps, this.pauses := rd, parseVersion, user, gaps, pauses;
      this.library, this.sasl := library, sasl;
      major, minor, partial, authType, authSubtype, offered, offeredSub := 0, 0, 0, INVALID, INVALID, [], [];
      wantUsername, wantPassword, wantX509, username, password, x509, tls := false, false, false, false, false, false, false;
      crashed, signals, sent, asked, refused := false, [], [], [], false;
      missed, misused, nulled, zeroed, excused, initAt := false, false, false, false, false, None;
    }

    /* The main loop runs. */

    method Apply(a: Answer)
      requires Valid()
      modifies `username, `password, `x509, `authType, `authSubtype, `crashed, `misused, rd`stop, `excused
      ensures Unasked() && Still()
      ensures password == if a == GivePassword then true else if a == ClearPassword then false else old(password)
      ensures username == if a == GiveUsername then true else if a == ClearUsername then false else old(username)
      ensures x509 == (old(x509) || a == GiveCertificates)
      ensures var bad := Misuse(a, old(authType), old(authSubtype));
              && (misused <==> old(misused) || bad) && (rd.stop <==> old(rd.stop) || bad || a == Shutdown)
              && authType == (if a.ChooseType? && !bad then a.authType else old(authType))
              && authSubtype == if bad then old(authSubtype) else if a.ChooseSubtype? then a.subtype
                                else if a.ChooseType? then INVALID else old(authSubtype)
    {
      hide Reader.Usable, Input;
      match a
      case GiveUsername => username := true;
      case GivePassword => password := true;
      case ClearUsername => username := false;
      case ClearPassword => password := false;
      case GiveCertificates => x509 := true;
      case ChooseType(t) =>
        if authType != INVALID || !Supported(t) {
          ErrorInMain();
        } else {
          authType, authSubtype := t, INVALID;
        }
      case ChooseSubtype(t) =>
        if (authType != VENCRYPT && authType != TLS) || authSubtype != INVALID {
          ErrorInMain();
        } else {
          authSubtype := t;
        }
      case UnknownCredential => ErrorInMain();
      case Shutdown => GoDown();
    }

    /** `vnc_connection_shutdown`, called by the application. */
    method GoDown()
      requires Valid()
      modifies rd`stop, `excused
      ensures Unasked() && Still() && rd.stop && excused
    {
      rd.stop, excused := true, true;
    }

    /** `vnc_connection_set_error` in the main coroutine. */
    method ErrorInMain()
      requires Valid()
      modifies `crashed, `misused, rd`stop, `excused
      ensures Unasked() && misused && rd.stop && excused
    {
      rd.stop, crashed, misused, excused := true, true, true, true;
    }

    method ApplyAll(batch: seq<Answer>)
      requires Valid()
      modifies `username, `password, `x509, `authType, `authSubtype, `crashed, `misused, rd`stop, `excused
      ensures Unasked() && Still()
      ensures password == IsLeft(batch, GivePassword, ClearPassword, old(password))
      ensures username == IsLeft(batch, GiveUsername, ClearUsername, old(username))
    {
      hide IsLeft, Reader.Usable, Misuse;
      NothingYet(batch);
      for i := 0 to |batch|
        invariant Unasked() && Still()
        invariant password == IsLeft(batch[..i], GivePassword, ClearPassword, old(password))
        invariant username == IsLeft(batch[..i], GiveUsername, ClearUsername, old(username))
      {
        LeftMore(batch, i, GivePassword, ClearPassword, old(password));
        LeftMore(batch, i, GiveUsername, ClearUsername, old(username));
        Apply(batch[i]);
      }
      assert batch[..|batch|] == batch;
    }

    lemma NothingYet(batch: seq<Answer>)
      ensures forall give, clear, had :: IsLeft(batch[..0], give, clear, had) == had
    {
    }

    /** One visit; with no more of them to come the user has shut the connection down. */
    method VisitMainLoop()
      requires Valid()
      modifies `username, `password, `x509, `authType, `authSubtype, `crashed, `misused, rd`stop, `excused, `user
      ensures Unasked() && Still()
      ensures |user| < |old(user)| || (user == [] && rd.stop)
      ensures !rd.stop ==> password == IsLeft(old(NextVisit()), GivePassword, ClearPassword, old(password))
      ensures !rd.stop ==> username == IsLeft(old(NextVisit()), GiveUsername, ClearUsername, old(username))
    {
      hide IsLeft, Misuse;
      if user == [] {
        GoDown();
        return;
      }
      BroughtFirst(user);
      var batch := user[0];
      user := user[1..];
      ApplyAll(batch);
    }

    /** What the next visit brings, the next gap, and the next pause. */
    ghost function NextVisit(): seq<Answer>
      reads this
    {
      Brought(user, 1)
    }

    ghost function NextGap(): seq<Answer>
      reads this
    {
      Brought(gaps, 1)
    }

    ghost function NextPause(): seq<Answer>
      reads this
    {
      Brought(pauses, 1)
    }

    /** The main loop may run other sources between the check that ends a wait and the coroutine's resumption. */
    method Gap()
      requires Valid()
      modifies `username, `password, `x509, `authType, `authSubtype, `crashed, `misused, rd`stop, `excused, `gaps
      ensures Unasked() && Still()
      ensures password == IsLeft(old(NextGap()), GivePassword, ClearPassword, old(password))
      ensures username == IsLeft(old(NextGap()), GiveUsername, ClearUsername, old(username))
    {
      BroughtFirst(gaps);
      var batch := [];
      if gaps != [] {
        batch, gaps := gaps[0], gaps[1..];
      }
      ApplyAll(batch);
    }

    /** It runs while the coroutine waits for the socket, or for the handlers of a signal. */
    method Pause()
      requires Valid()
      modifies `username, `password, `x509, `authType, `authSubtype, `crashed, `misused, rd`stop, `excused, `pauses
      ensures Unasked() && Still() && pauses == (if old(pauses) == [] then [] else old(pauses)[1..])
      ensures password == IsLeft(old(NextPause()), GivePassword, ClearPassword, old(password))
      ensures username == IsLeft(old(NextPause()), GiveUsername, ClearUsername, old(username))
    {
      BroughtFirst(pauses);
      var batch := [];
      if pauses != [] {
        batch, pauses := pauses[0], pauses[1..];
      }
      ApplyAll(batch);
    }

    /* What the coroutine does. */

    /** `vnc_connection_set_error`, which signals the error. */
    method SetError()
      requires Valid()
      modifies `username, `password, `x509, `authType, `authSubtype, `crashed, `misused, rd`stop, `excused, `pauses
      ensures Unasked() && rd.stop
      ensures pauses == if old(pauses) == [] then [] else old(pauses)[1..]
    {
      rd.stop := true;
      Pause();
    }

    /** A call into a library. */
    method Library() returns (ok: bool)
      requires Valid()
      modifies `library, `excused
      ensures Unasked() && Still() && rd.stop == old(rd.stop) && (!ok ==> excused)
    {
      ok := library != [] && library[0];
      excused := excused || !ok;
      library := if library == [] then [] else library[1..];
    }

    /** A call whose failure is an error of the connection. */
    method Demand() returns (ok: bool)
      requires Valid()
      modifies `username, `password, `x509, `authType, `authSubtype, `crashed, `misused, rd`stop, `excused, `pauses, `library
      ensures Unasked() && Still() && (!ok ==> rd.stop)
      ensures ok ==> username == old(username) && password == old(password) && pauses == old(pauses) && Input() == old(Input())
      ensures ok ==> rd.stop == old(rd.stop)
    {
      hide Reader.Usable, Misuse, IsLeft;
      ok := Library();
      if !ok {
        SetError();
      }
    }

    /** Writes and a flush, which may wait, and may fail. */
    method Send(what: Sent)
      requires Valid()
      modifies `username, `password, `x509, `authType, `authSubtype, `crashed, `misused, rd`stop, `sent, `excused, `pauses, `library
      ensures Unasked() && Still() && (!rd.stop ==> sent == old(sent) + [what])
    {
      hide Reader.Usable;
      if !rd.stop {
        sent := sent + [what];
        Pause();
        var ok := Library();
        if !ok && !rd.stop {
          SetError();
        }
      }
    }

    /** The wait of a read, unless the connection is down. */
    method Await()
      requires Valid()
      modifies `username, `password, `x509, `authType, `authSubtype, `crashed, `misused, rd`stop, `excused, `pauses
      ensures Unasked() && (Input() == old(Input()) || Input() == Dead) && (rd.stop <==> Input() == Dead) && (rd.stop ==> old(rd.stop) || excused)
      ensures pauses == if old(rd.stop) || old(pauses) == [] then old(pauses) else old(pauses)[1..]
      ensures password == if old(rd.stop) then old(password) else IsLeft(old(NextPause()), GivePassword, ClearPassword, old(password))
      ensures username == if old(rd.stop) then old(username) else IsLeft(old(NextPause()), GiveUsername, ClearUsername, old(username))
    {
      hide IsLeft, Misuse;
      ghost var rest := rd.Rest();
      if !rd.stop {
        Pause();
      }
      assert rd.Rest() == rest;
    }

    lemma DownIsDead()
      requires rd.Usable()
      ensures rd.stop <==> Input() == Dead
    {
    }

    lemma NothingTaken(n: nat)
      ensures Take(Dead, n).1 == Dead
    {
    }

    /** ... and what it then finds. */
    method Fetch(n: nat) returns (data: seq<byte>)
      requires Valid()
      modifies `excused, rd.Repr()
      ensures Unasked() && Took(n) && |data| == n && (rd.stop <==> Input() == Dead) && (!rd.stop ==> data == Take(old(Input()), n).0)
    {
      hide Reader.Usable, Reader.In, Reader.Aside, Zeros, Take;
      DownIsDead();
      NothingTaken(n);
      data := rd.ReadBytes(n);
      excused := excused || rd.stop;
    }

    /** A read. */
    method Bytes(n: nat) returns (data: seq<byte>)
      requires Valid()
      modifies `username, `password, `x509, `authType, `authSubtype, `crashed, `misused, rd`stop, `excused, `pauses, rd.Repr()
      ensures Unasked() && |data| == n && (rd.stop <==> Input() == Dead)
      ensures Took(n) && (!rd.stop ==> data == Take(old(Input()), n).0)
      ensures pauses == if old(rd.stop) || old(pauses) == [] then old(pauses) else old(pauses)[1..]
      ensures password == if old(rd.stop) then old(password) else IsLeft(old(NextPause()), GivePassword, ClearPassword, old(password))
      ensures username == if old(rd.stop) then old(username) else IsLeft(old(NextPause()), GiveUsername, ClearUsername, old(username))
    {
      hide IsLeft, Misuse, Zeros, Reader.In;
      Await();
      data := Fetch(n);
    }

    method Byte() returns (b: byte)
      requires Valid()
      modifies `username, `password, `x509, `authType, `authSubtype, `crashed, `misused, rd`stop, `excused, `pauses, rd.Repr()
      ensures Unasked() && Took(1) && (!rd.stop ==> b == Take(old(Input()), 1).0[0])
    {
      hide Reader.Usable;
      var data := Bytes(1);
      b := data[0];
    }

    method Long() returns (n: nat)
      requires Valid()
      modifies `username, `password, `x509, `authType, `authSubtype, `crashed, `misused, rd`stop, `excused, `pauses, rd.Repr()
      ensures Unasked() && Took(4) && (!rd.stop ==> n == U32(Take(old(Input()), 4).0))
    {
      hide Reader.Usable;
      var data := Bytes(4);
      n := U32(data);
    }

    /** A list of types, each of `width` bytes. */
    method Types(n: nat, width: nat) returns (types: seq<int>)
      requires Valid() && (width == 1 || width == 4)
      modifies `username, `password, `x509, `authType, `authSubtype, `crashed, `misused, rd`stop, `excused, `pauses, rd.Repr()
      ensures Unasked() && |types| == n && Took(n * width) && (!rd.stop ==> Lists(types, old(Input()), width))
    {
      hide Reader.Usable, Reader.In, Take, U32;
      types := [];
      ghost var f := Input();
      SkipNothing(f);
      ghost var at := 0;
      for i := 0 to n
        invariant Unasked() && |types| == i && at == i * width
        invariant rd.stop ==> old(rd.stop) || excused
        invariant rd.stop || (Input() == Skip(f, at) && Lists(types, f, width))
      {
        var t: int;
        SkipTwice(f, at, width);
        if width == 1 {
          t := Byte();
        } else {
          t := Long();
        }
        types := types + [t];
        at := at + width;
      }
    }

    /* Credentials. */

    predicate HasCredentials()
      reads this, rd
    {
      rd.stop || ((wantUsername ==> username) && (wantPassword ==> password) && (wantX509 ==> x509))
    }

    /** A credential that is wanted gets cleared, and not set again. */
    ghost predicate Clears(batch: seq<Answer>)
      reads this
    {
      (wantPassword && Drops(batch, GivePassword, ClearPassword)) || (wantUsername && Drops(batch, GiveUsername, ClearUsername))
    }

    ghost predicate Lacking()
      reads this
    {
      (wantPassword && !password) || (wantUsername && !username)
    }

    /** A credential needed is not there, nor brought by the next visit. */
    ghost predicate Waits(needsUsername: bool, needsPassword: bool)
      reads this
    {
      && ((needsPassword && !password) || (needsUsername && !username))
      && ((needsPassword && !IsLeft(NextVisit(), GivePassword, ClearPassword, password))
          || (needsUsername && !IsLeft(NextVisit(), GiveUsername, ClearUsername, username)))
    }

    /**
     * `vnc_connection_gather_credentials`: it succeeds exactly while the
     * connection is up, and then a credential is lacking exactly if it waited
     * and the gap at the end of the wait cleared one.
     */
    method GatherCredentials() returns (ok: bool, waited: bool)
      requires Valid()
      modifies `username, `password, `x509, `authType, `authSubtype, `crashed, `misused, rd`stop, `excused, `user, `gaps
      ensures Unasked() && (ok <==> !rd.stop) && Still()
      ensures ok ==> (wantPassword ==> password == IsLeft(if waited then old(NextGap()) else [], GivePassword, ClearPassword, true))
      ensures ok ==> (wantUsername ==> username == IsLeft(if waited then old(NextGap()) else [], GiveUsername, ClearUsername, true))
      ensures ok ==> (Lacking() <==> waited && old(Clears(NextGap())))
      ensures ok && !wantX509 ==> waited == old(Waits(wantUsername, wantPassword))
    {
      hide Reader.Usable, Drops, Misuse;
      waited := false;
      NothingYet([]);
      if rd.stop {
        return false, waited;
      }
      if !HasCredentials() {
        VisitMainLoop();
        if rd.stop {
          return false, waited;
        }
        if !HasCredentials() {
          WaitForCredentials();
          waited := true;
        }
      }
      ok := !rd.stop;
    }

    /** The g_condition_wait for the credentials. */
    method WaitForCredentials()
      requires Valid()
      modifies `username, `password, `x509, `authType, `authSubtype, `crashed, `misused, rd`stop, `excused, `user, `gaps
      ensures Unasked() && Still() && (!rd.stop ==> (Lacking() <==> old(Clears(NextGap()))))
      ensures !rd.stop && wantPassword ==> password == IsLeft(old(NextGap()), GivePassword, ClearPassword, true)
      ensures !rd.stop && wantUsername ==> username == IsLeft(old(NextGap()), GiveUsername, ClearUsername, true)
    {
      hide IsLeft, Drops, Reader.Usable, Misuse;
      LeftUnlessDropped(NextGap(), GivePassword, ClearPassword);
      LeftUnlessDropped(NextGap(), GiveUsername, ClearUsername);
      while !HasCredentials()
        invariant Unasked() && Still() && (rd.stop ==> HasCredentials()) && gaps == old(gaps)
        decreases |user|, !rd.stop
      {
        VisitMainLoop();
      }
      Gap();
    }

    /** With `gap` and `all` what was to come at the check, what the trace says is known of the credentials. */
    ghost predicate Tracks(gap: seq<Answer>, all: seq<seq<Answer>>, use: Trace)
      reads this
    {
      && pauses == (if use.pauses <= |all| then all[use.pauses..] else [])
      && (wantPassword ==> password == IsLeft(Between(gap, all, use), GivePassword, ClearPassword, true))
      && (wantUsername ==> username == IsLeft(Between(gap, all, use), GiveUsername, ClearUsername, true))
    }

    lemma BetweenNothing(gap: seq<Answer>, all: seq<seq<Answer>>, waited: bool)
      ensures Between(gap, all, Trace(waited, 0)) == if waited then gap else []
      ensures forall give, clear :: !Drops([], give, clear)
    {
    }

    lemma JustChecked(gap: seq<Answer>, waited: bool)
      requires wantPassword ==> password == IsLeft(if waited then gap else [], GivePassword, ClearPassword, true)
      requires wantUsername ==> username == IsLeft(if waited then gap else [], GiveUsername, ClearUsername, true)
      ensures Tracks(gap, pauses, Trace(waited, 0))
    {
      hide IsLeft;
      assert pauses[0..] == pauses;
      assert Between(gap, pauses, Trace(waited, 0)) == if waited then gap else [];
    }

    /** A credential is missing exactly if one has been cleared since the check. */
    lemma MissingIfCleared(gap: seq<Answer>, all: seq<seq<Answer>>, use: Trace)
      requires Tracks(gap, all, use)
      ensures Lacking() <==> Clears(Between(gap, all, use))
    {
      hide IsLeft, Drops, Between;
      LeftUnlessDropped(Between(gap, all, use), GivePassword, ClearPassword);
      LeftUnlessDropped(Between(gap, all, use), GiveUsername, ClearUsername);
    }

    /** Credentials are needed, and gathered. */
    method Ask(needsUsername: bool, needsPassword: bool) returns (ok: bool, ghost waited: bool)
      requires Valid()
      modifies `username, `password, `x509, `authType, `authSubtype, `crashed, `misused, rd`stop, `excused, `user, `gaps,
               `wantUsername, `wantPassword, `wantX509
      ensures Unasked() && (ok <==> !rd.stop) && Still()
      ensures Done().Wants(needsUsername, needsPassword)
      ensures ok ==> waited == old(Waits(needsUsername, needsPassword)) && Tracks(old(NextGap()), pauses, Trace(waited, 0))
    {
      hide Reader.Usable, IsLeft, Drops, Misuse, Input, Take, Input, Tracks;
      ghost var gap := NextGap();
      wantPassword, wantUsername, wantX509 := needsPassword, needsUsername, false;
      var w;
      ok, w := GatherCredentials();
      waited := w;
      if ok {
        JustChecked(gap, w);
      }
    }

    /** A read between the check and the use. */
    method ReadOn(n: nat, ghost gap: seq<Answer>, ghost all: seq<seq<Answer>>, ghost use: Trace)
      returns (data: seq<byte>, ghost next: Trace)
      requires Valid() && Tracks(gap, all, use)
      modifies `username, `password, `x509, `authType, `authSubtype, `crashed, `misused, rd`stop, `excused, `pauses, rd.Repr()
      ensures Unasked() && |data| == n && Tracks(gap, all, next)
      ensures Took(n) && (!rd.stop ==> data == Take(old(Input()), n).0)
      ensures next == use.(pauses := use.pauses + if old(rd.stop) then 0 else 1)
    {
      hide IsLeft, Reader.Usable, Between;
      next := use.(pauses := use.pauses + if rd.stop then 0 else 1);
      BetweenMore(gap, all, use);
      BroughtFirst(pauses);
      LeftTwice(Between(gap, all, use), NextPause(), GivePassword, ClearPassword, true);
      LeftTwice(Between(gap, all, use), NextPause(), GiveUsername, ClearUsername, true);
      data := Bytes(n);
    }

    /** `vnc_connection_check_auth_result` */
    method CheckAuthResult() returns (ok: bool)
      requires Valid() && asked == [] && !missed && !nulled && !zeroed
      modifies `username, `password, `x509, `authType, `authSubtype, `crashed, `misused, rd`stop, `excused, `pauses, `asked, rd.Repr()
      ensures Onward() && Settled(ok) && refused == old(refused)
      ensures |asked| == 1 && (asked[0] == old(Input()) || (asked[0].Dead? && rd.stop))
      ensures ok == AuthResult(asked[0], minor).0 && (rd.stop || Input() == AuthResult(asked[0], minor).1)
      ensures rd.stop ==> old(rd.stop) || excused || TurnedDown()
    {
      hide IsLeft, Misuse, AuthResult, Grants, RefusesAtLength, Reader.In;
      Await();
      asked := [Input()];
      AuthResultMeans(Input(), minor);
      ok := ReadResult();
    }

    /** The result, and the reason for a failure. */
    method ReadResult() returns (ok: bool)
      requires Valid() && (rd.stop ==> Input() == Dead)
      modifies `username, `password, `x509, `authType, `authSubtype, `crashed, `misused, rd`stop, `excused, `pauses, rd.Repr()
      ensures Unasked() && (rd.stop <==> Input() == Dead)
      ensures rd.stop ==> old(rd.stop) || excused || AuthResult(old(Input()), minor).1 == Dead
      ensures ok == AuthResult(old(Input()), minor).0 && (rd.stop || Input() == AuthResult(old(Input()), minor).1)
    {
      hide IsLeft, Misuse, U32, Zeros, Reader.In;
      var result := rd.ReadU32();
      ok := result == 0;
      if !ok {
        ReadReason();
      }
    }

    /** For a failure: only an over-long reason leaves the connection up. */
    method ReadReason()
      requires Valid()
      modifies `username, `password, `x509, `authType, `authSubtype, `crashed, `misused, rd`stop, `excused, `pauses, rd.Repr()
      ensures Unasked() && (rd.stop <==> Input() == Dead)
      ensures rd.stop ==> old(rd.stop) || excused || minor < 8 || TakeU32(old(Input())).0 <= REASON_MAX
      ensures !rd.stop ==> 8 <= minor && Input() == TakeU32(old(Input())).1 && REASON_MAX < TakeU32(old(Input())).0
    {
      hide IsLeft, Misuse, U32, Zeros, Reader.Usable;
      DownIsDead();
      if minor >= 8 {
        var len := Long();
        if len > REASON_MAX {
          return;
        }
        var reason := Bytes(len);
      }
      if !rd.stop {
        SetError();
      }
    }

    /**
     * `vnc_connection_perform_auth_vnc`: the password is found missing exactly
     * if it was cleared before the wait for it had ended, and followed as NULL
     * exactly if it was cleared by the time the challenge had been read.
     */
    method AuthVnc() returns (ok: bool, ghost use: Option<Trace>)
      requires Valid() && Fresh()
      modifies `username, `password, `x509, `authType, `authSubtype, `crashed, `misused, rd`stop, `sent, `excused, `pauses, `user, `gaps,
               `wantUsername, `wantPassword, `wantX509, `library, `asked, `missed, `nulled, `zeroed, rd.Repr()
      ensures Onward() && Settled(ok) && !zeroed && (Well() ==> RanVnc(Done(), old(sent), old(Input())))
      ensures if use.Some? then use.value.waited == old(Waits(false, true)) else rd.stop
      ensures missed <==> use.Some? && Drops(Between(old(NextGap()), old(pauses), Trace(use.value.waited, 0)), GivePassword, ClearPassword)
      ensures nulled <==> use.Some? && !missed
                          && Drops(Between(old(NextGap()), old(pauses), Trace(use.value.waited, 1)), GivePassword, ClearPassword)
      ensures rd.stop ==> old(rd.stop) || excused || TurnedDown()
    {
      hide Reader.Usable, Input, IsLeft, Drops, Between, Misuse, Settled, Well, Take, Tracks, TurnedDown, Skip;
      use := None;
      ghost var gap, all := NextGap(), pauses;
      ghost var waited;
      ok, waited := Ask(false, true);
      if !ok {
        Settles(ok);
        return;
      }
      use := Some(Trace(waited, 0));
      MissingIfCleared(gap, all, Trace(waited, 0));
      if !password {
        missed := true;
        Settles(false);
        return false, use;
      }
      ok := VncAnswer(gap, all, waited);
      if rd.stop { Settles(ok); }
    }

    /** With the password there. */
    method VncAnswer(ghost gap: seq<Answer>, ghost all: seq<seq<Answer>>, ghost waited: bool) returns (ok: bool)
      requires Valid() && Fresh() && Tracks(gap, all, Trace(waited, 0)) && !rd.stop && wantPassword && !wantUsername
      modifies `username, `password, `x509, `authType, `authSubtype, `crashed, `misused, rd`stop, `sent, `excused, `pauses, `library,
               `asked, `nulled, rd.Repr()
      ensures Onward() && Settled(ok) && !missed && !zeroed
      ensures Well() ==> asked == [Skip(old(Input()), 16)] && sent == old(sent) + [Response(Take(old(Input()), 16).0)]
      ensures nulled <==> Drops(Between(gap, all, Trace(waited, 1)), GivePassword, ClearPassword)
      ensures rd.stop ==> old(rd.stop) || excused || TurnedDown()
    {
      hide Reader.Usable, Input, IsLeft, Drops, Between, Misuse, Settled, Well, Take, Skip, Tracks, TurnedDown;
      var challenge;
      ok, challenge := VncKey(gap, all, waited);
      if ok {
        ok := Respond(Response(challenge));
      }
      if rd.stop || crashed { Settles(ok); }
    }

    /** The challenge is read, and the length of the password taken. */
    method VncKey(ghost gap: seq<Answer>, ghost all: seq<seq<Answer>>, ghost waited: bool) returns (ok: bool, challenge: seq<byte>)
      requires Valid() && Fresh() && Tracks(gap, all, Trace(waited, 0)) && !rd.stop && wantPassword && !wantUsername
      modifies `username, `password, `x509, `authType, `authSubtype, `crashed, `misused, rd`stop, `excused, `pauses, `nulled, rd.Repr()
      ensures Asking() && Took(16) && (!ok <==> nulled) && (!rd.stop ==> challenge == Take(old(Input()), 16).0)
      ensures nulled <==> Drops(Between(gap, all, Trace(waited, 1)), GivePassword, ClearPassword)
    {
      hide Reader.Usable, IsLeft, Drops, Between, Misuse;
      ghost var t;
      challenge, t := ReadOn(16, gap, all, Trace(waited, 0));
      MissingIfCleared(gap, all, t);
      ok := password;
      if !ok {
        nulled, crashed := true, true;
      }
    }

    /** What is encrypted goes out, and the result is asked for. */
    method Respond(what: Sent) returns (ok: bool)
      requires Valid() && Fresh()
      modifies `username, `password, `x509, `authType, `authSubtype, `crashed, `misused, rd`stop, `sent, `excused, `pauses, `library,
               `asked, rd.Repr()
      ensures Onward() && Settled(ok) && NothingMissing() && (Well() ==> asked == [old(Input())] && sent == old(sent) + [what])
      ensures rd.stop ==> old(rd.stop) || excused || TurnedDown()
    {
      hide Reader.Usable, IsLeft, Misuse;
      ok := Demand();
      if !ok {
        return;
      }
      ok := SendAndCheck(what);
    }

    method SendAndCheck(what: Sent) returns (ok: bool)
      requires Valid() && Fresh()
      modifies `username, `password, `x509, `authType, `authSubtype, `crashed, `misused, rd`stop, `sent, `excused, `pauses, `library,
               `asked, rd.Repr()
      ensures Onward() && Settled(ok) && NothingMissing() && (Well() ==> asked == [old(Input())] && sent == old(sent) + [what])
      ensures rd.stop ==> old(rd.stop) || excused || TurnedDown()
    {
      hide Reader.Usable, IsLeft, Misuse;
      Send(what);
      ok := CheckAuthResult();
    }

    /** No credential has been missing, and no modulus zero. */
    ghost predicate NothingMissing()
      reads this
    {
      !missed && !nulled && !zeroed
    }

    /** `vnc_connection_perform_auth_plain` */
    method AuthPlain() returns (ok: bool, ghost use: Option<Trace>)
      requires Valid() && Fresh()
      modifies `username, `password, `x509, `authType, `authSubtype, `crashed, `misused, rd`stop, `sent, `excused, `pauses, `user, `gaps,
               `wantUsername, `wantPassword, `wantX509, `library, `asked, `missed, `nulled, `zeroed, rd.Repr()
      ensures Onward() && Settled(ok) && !nulled && !zeroed && (Well() ==> RanPlain(Done(), old(sent), old(Input())))
      ensures if use.Some? then use.value == Trace(old(Waits(true, true)), 0) else rd.stop
      ensures missed <==> use.Some? && (var batch := Between(old(NextGap()), old(pauses), use.value);
                                        Drops(batch, GivePassword, ClearPassword) || Drops(batch, GiveUsername, ClearUsername))
      ensures rd.stop ==> old(rd.stop) || excused || TurnedDown()
    {
      hide Reader.Usable, Input, IsLeft, Drops, Between, Misuse, Settled, Well, Tracks, TurnedDown;
      use := None;
      ghost var gap, all := NextGap(), pauses;
      ghost var waited;
      ok, waited := Ask(true, true);
      if !ok {
        Settles(ok);
        return;
      }
      use := Some(Trace(waited, 0));
      MissingIfCleared(gap, all, use.value);
      if !password || !username {
        missed := true;
        Settles(false);
        return false, use;
      }
      ok := SendAndCheck(UserAndPassword);
      if rd.stop { Settles(ok); }
    }

    /**
     * `vnc_connection_perform_auth_mslogon`: a NULL is followed exactly if a
     * credential was cleared by the time the three numbers had been read.
     */
    method AuthMsLogon() returns (ok: bool, ghost use: Option<Trace>)
      requires Valid() && Fresh()
      modifies `username, `password, `x509, `authType, `authSubtype, `crashed, `misused, rd`stop, `sent, `excused, `pauses, `user, `gaps,
               `wantUsername, `wantPassword, `wantX509, `library, `asked, `missed, `nulled, `zeroed, rd.Repr()
      ensures Onward() && Settled(ok) && !missed && !zeroed && (use.None? ==> rd.stop)
      ensures Well() ==> RanMsLogon(Done(), old(sent), old(Input()))
      ensures use.Some? ==> use.value == Trace(old(Waits(true, true)), 3) && !Zero(MsLogonModulus(old(Input())))
      ensures nulled <==> use.Some? && (var batch := Between(old(NextGap()), old(pauses), use.value);
                                        Drops(batch, GivePassword, ClearPassword) || Drops(batch, GiveUsername, ClearUsername))
      ensures rd.stop ==> old(rd.stop) || excused || TurnedDown() || (!ok && Zero(MsLogonModulus(old(Input()))))
    {
      hide Reader.Usable, Input, IsLeft, Drops, Between, Misuse, Settled, Well, Take, U16, Tracks, Zero, MsLogonModulus, MsLogonReply,
           Skip, TurnedDown;
      use := None;
      ghost var gap, all := NextGap(), pauses;
      ghost var waited;
      ok, waited := Ask(true, true);
      if !ok {
        Settles(ok);
        return;
      }
      ok, use := MsLogonAnswer(gap, all, waited);
      if rd.stop { Settles(ok); }
    }

    /** With the credentials there. */
    method MsLogonAnswer(ghost gap: seq<Answer>, ghost all: seq<seq<Answer>>, ghost waited: bool)
      returns (ok: bool, ghost use: Option<Trace>)
      requires Valid() && Fresh() && Tracks(gap, all, Trace(waited, 0)) && !rd.stop && wantUsername && wantPassword
      modifies `username, `password, `x509, `authType, `authSubtype, `crashed, `misused, rd`stop, `sent, `excused, `pauses, `library,
               `asked, `nulled, rd.Repr()
      ensures Onward() && Settled(ok) && !missed && !zeroed && (use.None? ==> rd.stop)
      ensures Well() ==> asked == [Skip(old(Input()), 24)] && sent == old(sent) + [MsLogonReply(old(Input()))]
      ensures use.Some? ==> use.value == Trace(waited, 3) && !Zero(MsLogonModulus(old(Input())))
      ensures nulled <==> use.Some? && (var batch := Between(gap, all, use.value);
                                        Drops(batch, GivePassword, ClearPassword) || Drops(batch, GiveUsername, ClearUsername))
      ensures rd.stop ==> old(rd.stop) || excused || TurnedDown() || (!ok && Zero(MsLogonModulus(old(Input()))))
    {
      hide Reader.Usable, Input, IsLeft, Drops, Between, Misuse, Settled, Well, Take, Skip, Tracks, Zero, MsLogonModulus, MsLogonReply, TurnedDown;
      var reply;
      ghost var t;
      use := None;
      ok, reply, t := MsLogonKeys(gap, all, waited);
      if !ok {
        Settles(ok);
        return;
      }
      use := Some(t);
      ok := UseCredentials(reply, gap, all, t);
      if rd.stop { Settles(ok); }
    }

    /** The exchange of keys; a modulus of zeros is noticed. */
    method MsLogonKeys(ghost gap: seq<Answer>, ghost all: seq<seq<Answer>>, ghost waited: bool) returns (ok: bool, reply: Sent, ghost t: Trace)
      requires Valid() && Tracks(gap, all, Trace(waited, 0)) && !rd.stop
      modifies `username, `password, `x509, `authType, `authSubtype, `crashed, `misused, rd`stop, `excused, `pauses, rd.Repr()
      ensures Unasked() && TookUnless(24, Zero(MsLogonModulus(old(Input())))) && (!ok ==> rd.stop)
                && (ok ==> t == Trace(waited, 3) && Tracks(gap, all, t) && !Zero(MsLogonModulus(old(Input()))))
      ensures ok ==> reply == MsLogonReply(old(Input()))
    {
      hide Reader.Usable, IsLeft, Misuse, Input, Take, Drops;
      ghost var f := Input();
      SkipTwice(f, 8, 8);
      SkipTwice(f, 16, 8);
      var gen, mod, resp;
      gen, t := ReadOn(8, gap, all, Trace(waited, 0));
      mod, t := ReadOn(8, gap, all, t);
      resp, t := ReadOn(8, gap, all, t);
      reply := Reply(gen, mod, resp);
      if rd.stop {
        return false, reply, t;
      }
      ok := !Zero(mod);
      if !ok {
        SetError();
      }
    }

    /** The lengths of the credentials are taken, and what is encrypted goes out. */
    method UseCredentials(what: Sent, ghost gap: seq<Answer>, ghost all: seq<seq<Answer>>, ghost use: Trace) returns (ok: bool)
      requires Valid() && Fresh() && Tracks(gap, all, use) && wantUsername && wantPassword
      modifies `username, `password, `x509, `authType, `authSubtype, `crashed, `misused, rd`stop, `sent, `excused, `pauses, `library,
               `asked, `nulled, rd.Repr()
      ensures Onward() && Settled(ok) && !missed && !zeroed && (Well() ==> asked == [old(Input())] && sent == old(sent) + [what])
      ensures var batch := Between(gap, all, use);
              nulled <==> Drops(batch, GivePassword, ClearPassword) || Drops(batch, GiveUsername, ClearUsername)
      ensures rd.stop ==> old(rd.stop) || excused || TurnedDown()
    {
      hide Reader.Usable, Input, IsLeft, Drops, Between, Misuse, Settled, Well, Tracks;
      MissingIfCleared(gap, all, use);
      if !password || !username {
        nulled, crashed := true, true;
        Settles(false);
        return false;
      }
      ok := Respond(what);
    }

    /**
     * `vnc_connection_perform_auth_ard`: likewise, with up to four reads, of
     * which fewer wait only if the connection fails; and here no one looks
     * whether the modulus is zero.
     */
    method AuthArd() returns (ok: bool, ghost use: Option<Trace>)
      requires Valid() && Fresh()
      modifies `username, `password, `x509, `authType, `authSubtype, `crashed, `misused, rd`stop, `sent, `excused, `pauses, `user, `gaps,
               `wantUsername, `wantPassword, `wantX509, `library, `asked, `missed, `nulled, `zeroed, rd.Repr()
      ensures Well() ==> RanArd(Done(), old(sent), old(Input()))
      ensures Onward() && Settled(ok) && !missed && (use.None? ==> rd.stop || zeroed)
      ensures use.Some? ==> use.value.waited == old(Waits(true, true)) && use.value.pauses <= 4 && (use.value.pauses < 4 ==> rd.stop)
      ensures nulled <==> use.Some? && (var batch := Between(old(NextGap()), old(pauses), use.value);
                                        Drops(batch, GivePassword, ClearPassword) || Drops(batch, GiveUsername, ClearUsername))
      ensures !rd.stop ==> (zeroed <==> Zero(ArdModulus(old(Input()))))
      ensures rd.stop ==> old(rd.stop) || excused || TurnedDown()
    {
      hide Reader.Usable, Input, IsLeft, Drops, Between, Misuse, Settled, Well, Take, U16, Tracks, Zero, ArdModulus, ArdReply, Skip, TurnedDown;
      use := None;
      ghost var gap, all := NextGap(), pauses;
      ghost var waited;
      ok, waited := Ask(true, true);
      if !ok {
        Settles(ok);
        return;
      }
      ok, use := ArdAnswer(gap, all, waited);
      if rd.stop { Settles(ok); }
    }

    /** With the credentials there. */
    method ArdAnswer(ghost gap: seq<Answer>, ghost all: seq<seq<Answer>>, ghost waited: bool)
      returns (ok: bool, ghost use: Option<Trace>)
      requires Valid() && Fresh() && Tracks(gap, all, Trace(waited, 0)) && !rd.stop && wantUsername && wantPassword
      modifies `username, `password, `x509, `authType, `authSubtype, `crashed, `misused, rd`stop, `sent, `excused, `pauses, `library,
               `asked, `nulled, `zeroed, rd.Repr()
      ensures Onward() && Settled(ok) && !missed && (use.None? ==> rd.stop || zeroed)
      ensures Well() ==> asked == [Skip(old(Input()), 4 + 2 * U16(Take(Skip(old(Input()), 2), 2).0))] && sent == old(sent) + [ArdReply(old(Input()))]
      ensures use.Some? ==> use.value.waited == waited && use.value.pauses <= 4 && (use.value.pauses < 4 ==> rd.stop)
      ensures nulled <==> use.Some? && (var batch := Between(gap, all, use.value);
                                        Drops(batch, GivePassword, ClearPassword) || Drops(batch, GiveUsername, ClearUsername))
      ensures !rd.stop ==> (zeroed <==> Zero(ArdModulus(old(Input()))))
      ensures rd.stop ==> old(rd.stop) || excused || TurnedDown()
    {
      hide Reader.Usable, Input, IsLeft, Drops, Between, Misuse, Settled, Well, Take, Skip, U16, Tracks, Zero, ArdModulus, ArdReply, TurnedDown;
      var reply;
      ghost var t;
      use := None;
      ok, reply, t := ArdKeys(gap, all, waited);
      if !ok {
        Settles(ok);
        return;
      }
      use := Some(t);
      ok := UseCredentials(reply, gap, all, t);
      if rd.stop { Settles(ok); }
    }

    /** The exchange of keys, of the length that the server gives. */
    method ArdKeys(ghost gap: seq<Answer>, ghost all: seq<seq<Answer>>, ghost waited: bool)
      returns (ok: bool, reply: Sent, ghost t: Trace)
      requires Valid() && Tracks(gap, all, Trace(waited, 0)) && !rd.stop && !zeroed
      modifies `username, `password, `x509, `authType, `authSubtype, `crashed, `misused, rd`stop, `excused, `pauses, `library, `zeroed, rd.Repr()
      ensures Computing() && Took(4 + 2 * U16(Take(Skip(old(Input()), 2), 2).0)) && (!ok ==> rd.stop || zeroed) && (ok ==> !zeroed)
      ensures ok ==> t.waited == waited && t.pauses <= 4 && (t.pauses < 4 ==> rd.stop) && Tracks(gap, all, t)
      ensures !rd.stop ==> (zeroed <==> Zero(ArdModulus(old(Input()))))
      ensures ok && !rd.stop ==> reply == ArdReply(old(Input()))
    {
      hide Reader.Usable, IsLeft, Misuse, Input, Take, Drops;
      ghost var f := Input();
      SkipTwice(f, 2, 2);
      SkipTwice(f, 4, 2 * U16(Take(Skip(f, 2), 2).0));
      var gen, len;
      gen, t := ReadOn(2, gap, all, Trace(waited, 0));
      len, t := ReadOn(2, gap, all, t);
      reply := Reply(gen, [], []);
      ok := Demand();           // the memory
      if !ok {
        return;
      }
      SkipTwice(f, 4, U16(len));
      ok, reply, t := ArdNumbers(gen, U16(len), gap, all, t);
    }

    /** What a failed read leaves of the modulus is anything. */
    method ArdNumbers(gen: seq<byte>, n: nat, ghost gap: seq<Answer>, ghost all: seq<seq<Answer>>, ghost use: Trace)
      returns (ok: bool, reply: Sent, ghost t: Trace)
      requires Valid() && Tracks(gap, all, use) && use.pauses <= 2 && (use.pauses < 2 ==> rd.stop) && !zeroed
      modifies `username, `password, `x509, `authType, `authSubtype, `crashed, `misused, rd`stop, `excused, `pauses, `library, `zeroed, rd.Repr()
      ensures Computing() && Took(2 * n) && (!ok ==> rd.stop || zeroed) && (ok ==> !zeroed)
      ensures ok ==> t.waited == use.waited && t.pauses <= 4 && (t.pauses < 4 ==> rd.stop) && Tracks(gap, all, t)
      ensures !rd.stop ==> (zeroed <==> Zero(Take(old(Input()), n).0))
      ensures ok && !rd.stop ==> reply == Reply(gen, Take(old(Input()), n).0, Take(Skip(old(Input()), n), n).0)
    {
      hide Reader.Usable, IsLeft, Misuse, Input, Take, Drops;
      SkipTwice(Input(), n, n);
      var mod, resp;
      mod, t := ReadOn(n, gap, all, use);
      resp, t := ReadOn(n, gap, all, t);
      reply := Reply(gen, mod, resp);
      ok := ArdSecret(mod);
    }

    /** The powers of the modulus are taken, and the digest. */
    method ArdSecret(mod: seq<byte>) returns (ok: bool)
      requires Valid() && !zeroed
      modifies `username, `password, `x509, `authType, `authSubtype, `crashed, `misused, rd`stop, `excused, `pauses, `library, `zeroed
      ensures Computing() && Still() && (!ok ==> rd.stop || zeroed)
      ensures ok ==> !zeroed && username == old(username) && password == old(password) && pauses == old(pauses) && rd.stop == old(rd.stop)
      ensures !rd.stop ==> (zeroed <==> Zero(mod))
    {
      hide Reader.Usable, IsLeft, Misuse, Zero;
      var garbage := Library();
      if if rd.stop then garbage else Zero(mod) {
        zeroed, crashed := true, true;
        return false;
      }
      ok := Demand();           // the digest
    }

    /* SASL. */

    /**
     * A step of the SASL library, with the credentials it asks for along the
     * way, whose lengths are taken; None is a failure or a crash.
     */
    method SaslStep() returns (step: Option<Step>)
      requires Valid() && Fresh()
      modifies `username, `password, `x509, `authType, `authSubtype, `crashed, `misused, rd`stop, `excused, `user, `gaps, `pauses,
               `wantUsername, `wantPassword, `wantX509, `sasl, `nulled
      ensures Asking() && Still() && (step.Some? ==> Fresh()) && (step.None? ==> crashed || rd.stop)
      ensures step.Some? ==> step.value.Ok? || step.value.Continue?
      ensures |sasl| <= |old(sasl)| && (step.Some? ==> |sasl| < |old(sasl)|)
    {
      hide Reader.Usable, Misuse, IsLeft;
      while sasl != []
        invariant Asking() && Still() && Fresh() && |sasl| <= |old(sasl)|
        decreases |sasl|
      {
        var next := sasl[0];
        sasl := sasl[1..];
        match next
        case Interact(needsUsername, needsPassword) =>
          var ok;
          ok := SaslCredentials(needsUsername, needsPassword);
          if !ok {
            return None;
          }
        case Fail =>
          excused := true;
          SetError();
          return None;
        case _ =>
          return Some(next);
      }
      excused := true;
      SetError();
      step := None;
    }

    /**
     * `vnc_connection_gather_sasl_credentials`; its caller sets the error.  A
     * NULL is followed exactly if one was cleared before the wait had ended.
     */
    method SaslCredentials(needsUsername: bool, needsPassword: bool) returns (ok: bool)
      requires Valid() && Fresh()
      modifies `username, `password, `x509, `authType, `authSubtype, `crashed, `misused, rd`stop, `excused, `user, `gaps, `pauses,
               `wantUsername, `wantPassword, `wantX509, `nulled
      ensures Asking() && Still() && (ok ==> Fresh()) && (!ok ==> crashed || rd.stop)
      ensures nulled ==> old(Waits(needsUsername, needsPassword))
      ensures !rd.stop && old(Waits(needsUsername, needsPassword)) ==>
                (nulled <==> (needsPassword && Drops(old(NextGap()), GivePassword, ClearPassword))
                             || (needsUsername && Drops(old(NextGap()), GiveUsername, ClearUsername)))
      ensures ok ==> Done().Wants(needsUsername, needsPassword)
    {
      hide Reader.Usable, Misuse, IsLeft, Drops, Between, Input, Tracks;
      ghost var gap, all := NextGap(), pauses;
      if !needsPassword && !needsUsername {
        wantPassword, wantUsername, wantX509 := false, false, false;
        return true;
      }
      ghost var waited;
      ok, waited := Ask(needsUsername, needsPassword);
      if !ok {
        SetError();
        return;
      }
      MissingIfCleared(gap, all, Trace(waited, 0));
      BetweenNothing(gap, all, waited);
      if (needsPassword && !password) || (needsUsername && !username) {
        nulled, crashed := true, true;
        ok := false;
      }
    }

    /** The server's side of an exchange: data, and whether it is through. */
    method SaslReply() returns (complete: bool)
      requires Valid()
      modifies `username, `password, `x509, `authType, `authSubtype, `crashed, `misused, rd`stop, `excused, `pauses, rd.Repr()
      ensures if rd.stop then old(rd.stop) || excused || OverlongAt(old(Input()), 0) else !OverlongAt(old(Input()), 0)
      ensures Unasked() && (!rd.stop ==> Input() == BehindReplies(old(Input()), 1) && (complete <==> Completes(old(Input()), 1)))
    {
      hide Reader.Usable, Misuse, IsLeft;
      complete := false;
      var len := Long();
      if rd.stop {
        return;
      }
      if SASL_DATA_MAX < len {
        SetError();
        return;
      }
      var data := Bytes(len);
      var c := Byte();
      complete := c != 0;
    }

    /** `vnc_connection_perform_auth_sasl` */
    method AuthSasl() returns (ok: bool)
      requires Valid() && Fresh()
      modifies `username, `password, `x509, `authType, `authSubtype, `crashed, `misused, rd`stop, `sent, `excused, `pauses, `user, `gaps,
               `wantUsername, `wantPassword, `wantX509, `library, `asked, `missed, `nulled, `zeroed, `sasl, rd.Repr()
      ensures Onward() && Settled(ok) && !missed && !zeroed && (Well() ==> RanSasl(Done(), old(sent), old(Input())))
      ensures rd.stop ==> old(rd.stop) || excused || TurnedDown() || (!ok && OverlongSasl(old(Input())))
    {
      hide Reader.Usable, Reader.In, Misuse, IsLeft, BehindText, BehindReplies, Completes;
      ghost var n;
      ok, n := SaslNegotiation();
      if ok {
        ok := CheckAuthResult();
      } else {
        Pause();                 // the failure is signalled
      }
    }

    /** All of it up to the result. */
    method SaslNegotiation() returns (ok: bool, ghost n: nat)
      requires Valid() && Fresh()
      modifies `username, `password, `x509, `authType, `authSubtype, `crashed, `misused, rd`stop, `sent, `excused, `user, `gaps, `pauses,
               `wantUsername, `wantPassword, `wantX509, `sasl, `nulled, `library, rd.Repr()
      ensures rd.stop ==> old(rd.stop) || excused || (!ok && OverlongSasl(old(Input())))
      ensures Asking() && (ok ==> Fresh()) && (!ok ==> crashed || rd.stop)
      ensures ok && !rd.stop ==>
                var f := BehindText(old(Input()));
                && U32(Take(old(Input()), 4).0) <= 300 && Exchanged(f, n)
                && Input() == BehindReplies(f, n) && sent == old(sent) + SaslSent(n)
    {
      hide Reader.Usable, Reader.In, Misuse, IsLeft, BehindText, BehindReplies, Completes, OverlongAt, OverlongReply, NoneOverlong, SaslSent;
      n := 1;
      ghost var f := BehindText(Input());
      ok := SaslMechanisms();
      if !ok {
        return;
      }
      var step := SaslStep();
      if step.None? {
        return false, n;
      }
      SaslSentMore(sent, 0);
      Send(SaslBegin);
      if rd.stop {
        return false, n;
      }
      ghost var before := Input();
      var complete := SaslReply();
      NoReplies(f);
      if OverlongAt(before, 0) { ReplyOverlong(f, 0); }
      NextNotOverlong(f, 0);
      if rd.stop {
        return false, n;
      }
      if !(complete && step.value.Ok?) {
        ok, n := SaslExchange(complete, old(sent), f);
        if !ok {
          return;
        }
      }
      if !tls {
        ok := Demand();
      }
    }

    /** Its start: the library is set up, and the server lists its mechanisms. */
    method SaslMechanisms() returns (ok: bool)
      requires Valid()
      modifies `username, `password, `x509, `authType, `authSubtype, `crashed, `misused, rd`stop, `excused, `pauses, `library, rd.Repr()
      ensures if rd.stop then old(rd.stop) || excused || 300 < U32(Take(old(Input()), 4).0) else U32(Take(old(Input()), 4).0) <= 300
      ensures Unasked() && (!ok ==> rd.stop) && (!rd.stop ==> Input() == BehindText(old(Input())))
    {
      hide Reader.Usable, Misuse, IsLeft;
      ok := Demand();
      if !ok {
        return;
      }
      var len := Long();
      if rd.stop {
        return false;
      }
      if MECHLIST_MAX < len {
        SetError();
        return false;
      }
      var mechlist := Bytes(len);
      ok := !rd.stop;
    }

    /** Its loop; the client always takes at least one step. */
    method SaslExchange(complete: bool, ghost b: seq<Sent>, ghost f: Feed) returns (done: bool, ghost n: nat)
      requires Valid() && Fresh() && (!rd.stop ==> Input() == BehindReplies(f, 1) && (complete <==> Completes(f, 1)) && NoneOverlong(f, 1))
      requires !rd.stop ==> sent == b + SaslSent(1)
      modifies `username, `password, `x509, `authType, `authSubtype, `crashed, `misused, rd`stop, `sent, `excused, `user, `gaps, `pauses,
               `wantUsername, `wantPassword, `wantX509, `sasl, `nulled, `library, rd.Repr()
      ensures rd.stop ==> old(rd.stop) || excused || (!done && OverlongReply(f))
      ensures Asking() && (done ==> Fresh()) && (!done ==> crashed || rd.stop)
      ensures done && !rd.stop ==> Exchanged(f, n) && Input() == BehindReplies(f, n) && sent == b + SaslSent(n)
    {
      hide Reader.Usable, Misuse, IsLeft, Reader.In, Completes, BehindReplies, OverlongAt, OverlongReply, NoneOverlong, SaslSent;
      var through := complete;
      n := 1;
      while true
        invariant Asking() && Fresh() && 0 < n && (rd.stop ==> old(rd.stop) || excused)
        invariant !rd.stop ==> Input() == BehindReplies(f, n) && (through <==> Completes(f, n)) && NoneOverlong(f, n)
        invariant !rd.stop ==> sent == b + SaslSent(n)
        decreases |sasl|
      {
        var step := SaslStep();
        if step.None? {
          return false, n;
        }
        if through && step.value.Ok? {
          return true, n;
        }
        Send(SaslNext);
        SaslSentMore(b, n);
        if rd.stop {
          return false, n;
        }
        OneReplyMore(f, n);
        ghost var before := Input();
        through := SaslReply();
        if OverlongAt(before, 0) { ReplyOverlong(f, n); }
        NextNotOverlong(f, n);
        n := n + 1;
        if rd.stop {
          return false, n;
        }
        if through && step.value.Ok? {
          return true, n;
        }
      }
    }

    /* TLS. */

    /** `vnc_connection_start_tls` */
    method StartTls(anonymous: bool) returns (ok: bool)
      requires Valid() && Fresh() && authType != INVALID
      modifies `username, `password, `x509, `authType, `authSubtype, `crashed, `misused, rd`stop, `excused, `user, `gaps, `pauses,
               `wantUsername, `wantPassword, `wantX509, `library, `tls
      ensures Unasked() && Still() && (!ok ==> rd.stop)
      ensures if anonymous || old(tls) then Done().SameWants(old(Done()))
              else !rd.stop ==> !wantUsername && !wantPassword && wantX509
    {
      hide Reader.Usable, Misuse, IsLeft, Input, Take, Drops;
      if !tls {
        ok := SetUpTls(anonymous);
        if !ok {
          return;
        }
      }
      ok := ShakeHands();
      if ok && !anonymous {
        ok := Demand();          // the certificates
      }
    }

    method SetTls(up: bool)
      requires Valid()
      modifies `tls
      ensures Unasked() && Still() && tls == up && Input() == old(Input())
    {
      hide Reader.Usable, Input, Misuse;
      tls := up;
    }

    /** The handshake. */
    method ShakeHands() returns (ok: bool)
      requires Valid()
      modifies `username, `password, `x509, `authType, `authSubtype, `crashed, `misused, rd`stop, `excused, `pauses, `library, `tls
      ensures Unasked() && Still() && (!ok ==> rd.stop)
      ensures ok ==> pauses == if old(pauses) == [] then [] else old(pauses)[1..]
    {
      hide Reader.Usable, Misuse, IsLeft, Input;
      Pause();
      ok := Demand();
      if !ok {
        SetTls(false);
      }
    }

    /** The session and its credentials. */
    method SetUpTls(anonymous: bool) returns (ok: bool)
      requires Valid() && Fresh() && authType != INVALID
      modifies `username, `password, `x509, `authType, `authSubtype, `crashed, `misused, rd`stop, `excused, `user, `gaps, `pauses,
               `wantUsername, `wantPassword, `wantX509, `library, `tls
      ensures Unasked() && Still() && (!ok ==> rd.stop)
      ensures if anonymous then Done().SameWants(old(Done()))
              else !rd.stop ==> !wantUsername && !wantPassword && wantX509
    {
      hide Reader.Usable, Misuse, IsLeft, Input, Take, Drops;
      ok := Demand();
      if !ok {
        return;
      }
      SetTls(true);
      if !anonymous {
        ok := AskForCertificates();
        if !ok {
          return;
        }
      }
      ok := Demand();
      if !ok {
        SetTls(false);
      }
    }

    method AskForCertificates() returns (ok: bool)
      requires Valid() && Fresh() && authType != INVALID
      modifies `username, `password, `x509, `authType, `authSubtype, `crashed, `misused, rd`stop, `excused, `user, `gaps,
               `wantUsername, `wantPassword, `wantX509
      ensures Unasked() && Still() && (!ok ==> rd.stop) && !wantUsername && !wantPassword && wantX509
    {
      hide Reader.Usable, Misuse, IsLeft, Drops;
      wantPassword, wantUsername, wantX509 := false, false, true;
      var waited;
      ok, waited := GatherCredentials();
    }

    /** Announce the subtypes, and wait until one has been chosen. */
    method WaitForSubtype()
      requires Valid() && authType != INVALID
      modifies `username, `password, `x509, `authType, `authSubtype, `crashed, `misused, rd`stop, `excused, `user, `gaps
      ensures Unasked() && Still() && (authSubtype != INVALID || rd.stop)
    {
      hide Reader.Usable, Misuse, IsLeft;
      VisitMainLoop();
      if rd.stop || authSubtype != INVALID {
        return;
      }
      while !(rd.stop || authSubtype != INVALID)
        invariant Unasked() && Still()
        decreases |user|, !rd.stop
      {
        VisitMainLoop();
      }
      Gap();
    }

    /** `vnc_connection_perform_auth_tls` */
    method AuthTls() returns (ok: bool)
      requires Valid() && Fresh() && !wantUsername && !wantPassword && authType == TLS
      modifies `username, `password, `x509, `authType, `authSubtype, `crashed, `misused, rd`stop, `sent, `excused, `pauses, `user, `gaps,
               `wantUsername, `wantPassword, `wantX509, `library, `asked, `missed, `nulled, `zeroed, `sasl, `tls,
               `offeredSub, `refused, rd.Repr()
      ensures Onward() && Settled(ok) && authType == TLS && (Well() ==> RanTls(Done(), old(sent), old(Input())))
      ensures 7 <= minor && rd.stop ==> old(rd.stop) || excused || TurnedDown() || (!ok && Objects(Done(), old(Input())))
    {
      hide Reader.Usable, Input, Misuse, IsLeft, Settled, Well, Take, Skip, Lists, RanTls, Objects, TurnedDown;
      ok := StartTls(true);
      if !ok {
        Settles(ok);
        return;
      }
      ok := TlsListed();
      if rd.stop { Settles(ok); }
    }

    /** ... with TLS up. */
    method TlsListed() returns (ok: bool)
      requires Valid() && Fresh() && !wantUsername && !wantPassword && authType == TLS
      modifies `username, `password, `x509, `authType, `authSubtype, `crashed, `misused, rd`stop, `sent, `excused, `pauses, `user, `gaps,
               `wantUsername, `wantPassword, `wantX509, `library, `asked, `missed, `nulled, `zeroed, `sasl,
               `offeredSub, `refused, rd.Repr()
      ensures Onward() && Settled(ok) && authType == TLS && (Well() ==> RanTls(Done(), old(sent), old(Input())))
      ensures 7 <= minor && rd.stop ==> old(rd.stop) || excused || TurnedDown() || (!ok && Objects(Done(), old(Input())))
    {
      hide Reader.Usable, Input, Misuse, IsLeft, Settled, Well, Take, Skip, Lists, RanTlsSubtype, OverlongSasl, TurnedDown;
      ghost var f := Input();
      ByteFirst(f);
      var nauth := Byte();
      if rd.stop {
        Settles(false);
        return false;
      }
      if nauth == 0 {
        ok := Refused();
        if rd.stop { Settles(ok); }
        return;
      }
      SkipTwice(f, 1, nauth);
      ok := TlsTypes(nauth);
      if rd.stop { Settles(ok); }
    }

    /** The subtypes are read and announced, one is chosen, and the server told. */
    method TlsTypes(nauth: nat) returns (ok: bool)
      requires Valid() && Fresh() && !wantUsername && !wantPassword && authType == TLS
      modifies `username, `password, `x509, `authType, `authSubtype, `crashed, `misused, rd`stop, `sent, `excused, `pauses, `user, `gaps,
               `wantUsername, `wantPassword, `wantX509, `library, `asked, `missed, `nulled, `zeroed, `sasl,
               `offeredSub, rd.Repr()
      ensures Onward() && Settled(ok)
      ensures Well() ==>
                |offeredSub| == nauth <= 80 && Lists(offeredSub, old(Input()), 1)
                && RanTlsSubtype(Done(), old(sent) + [Choice(authSubtype)], Skip(old(Input()), nauth))
      ensures rd.stop ==> old(rd.stop) || excused || TurnedDown()
                          || (!ok && (80 < nauth || authSubtype !in {1, 2, 20} || (authSubtype == 20 && OverlongSasl(Skip(old(Input()), nauth)))))
    {
      hide Reader.Usable, Input, Misuse, IsLeft, Settled, Well, Take, Skip, Lists, RanTlsSubtype, OverlongSasl, TurnedDown;
      ok := TlsChoose(nauth);
      if !ok {
        Settles(ok);
        return;
      }
      ok := TlsSubtype();
      if rd.stop { Settles(ok); }
    }

    method TlsChoose(nauth: nat) returns (ok: bool)
      requires Valid() && authType == TLS
      modifies `username, `password, `x509, `authType, `authSubtype, `crashed, `misused, rd`stop, `sent, `excused, `pauses, `user,
               `gaps, `library, `offeredSub, rd.Repr()
      ensures Unasked() && TookUnless(nauth, !ok && 80 < nauth) && (!ok ==> rd.stop) && (ok ==> authSubtype != INVALID)
      ensures !rd.stop ==> |offeredSub| == nauth <= 80 && Lists(offeredSub, old(Input()), 1) && sent == old(sent) + [Choice(authSubtype)]
    {
      hide Reader.Usable, Input, Misuse, IsLeft, Take, Skip, Lists;
      if 80 < nauth {
        SetError();
        return false;
      }
      offeredSub := Types(nauth, 1);
      if rd.stop {
        return false;
      }
      WaitForSubtype();
      if rd.stop {
        return false;
      }
      Send(Choice(authSubtype));
      ok := true;
    }

    /** Its switch. */
    method TlsSubtype() returns (ok: bool)
      requires Valid() && Fresh() && !wantUsername && !wantPassword && authType == TLS && authSubtype != INVALID
      modifies `username, `password, `x509, `authType, `authSubtype, `crashed, `misused, rd`stop, `sent, `excused, `pauses, `user, `gaps,
               `wantUsername, `wantPassword, `wantX509, `library, `asked, `missed, `nulled, `zeroed, `sasl, rd.Repr()
      ensures Onward() && Settled(ok)
      ensures Well() ==> RanTlsSubtype(Done(), old(sent), old(Input()))
      ensures rd.stop ==> old(rd.stop) || excused || TurnedDown()
                          || (!ok && (authSubtype !in {1, 2, 20} || (authSubtype == 20 && OverlongSasl(old(Input())))))
    {
      hide Reader.Usable, Misuse, IsLeft, Drops;
      ghost var use;
      if authSubtype == NONE {
        if minor == 8 {
          ok := CheckAuthResult();
        } else {
          ok := true;
        }
      } else if authSubtype == VNC {
        ok, use := AuthVnc();
      } else if authSubtype == SASL {
        ok := AuthSasl();
      } else {
        SetError();
        ok := false;
      }
    }

    /** `vnc_connection_perform_auth_vencrypt` */
    method AuthVencrypt() returns (ok: bool)
      requires Valid() && Fresh() && authType == VENCRYPT && !wantUsername && !wantPassword
      modifies `username, `password, `x509, `authType, `authSubtype, `crashed, `misused, rd`stop, `sent, `excused, `pauses, `user, `gaps,
               `wantUsername, `wantPassword, `wantX509, `library, `asked, `missed, `nulled, `zeroed, `sasl, `tls,
               `offeredSub, rd.Repr()
      ensures Onward() && Settled(ok) && authType == VENCRYPT && (Well() ==> RanVencrypt(Done(), old(sent), old(Input()), old(tls)))
      ensures rd.stop ==> old(rd.stop) || excused || TurnedDown() || (!ok && Objects(Done(), old(Input())))
    {
      hide Reader.Usable, Input, Misuse, IsLeft, Settled, Well, Take, Lists, RanVencryptSubtype, TurnedDown, Skip, OverlongSasl;
      ghost var f := Input();
      ok := VencryptSubtype();
      if !ok {
        Settles(ok);
        return;
      }
      SkipTwice(f, 4 + 4 * ByteAt(f, 3), 1);
      SkipNothing(Skip(f, 4 + 4 * ByteAt(f, 3)));
      ok := VencryptCarryOut();
      if rd.stop { Settles(ok); }
    }

    /** With a subtype chosen. */
    method VencryptCarryOut() returns (ok: bool)
      requires Valid() && Fresh() && authType == VENCRYPT && !wantUsername && !wantPassword
      requires VENCRYPT_PLAIN <= authSubtype <= VENCRYPT_TLSSASL
      modifies `username, `password, `x509, `authType, `authSubtype, `crashed, `misused, rd`stop, `sent, `excused, `pauses, `user, `gaps,
               `wantUsername, `wantPassword, `wantX509, `library, `asked, `missed, `nulled, `zeroed, `sasl, `tls, rd.Repr()
      ensures Onward() && Settled(ok)
      ensures Well() ==> ByteAt(old(Input()), 0) == 1
                         && RanVencryptSubtype(Done(), old(sent) + [Subchoice(authSubtype)], Skip(old(Input()), 1), old(tls))
      ensures rd.stop ==> old(rd.stop) || excused || TurnedDown()
                          || (!ok && (ByteAt(old(Input()), 0) != 1 || (263 <= authSubtype && OverlongSasl(Skip(old(Input()), 1)))))
    {
      hide Reader.Usable, Input, Misuse, IsLeft, Settled, Well, Take, Skip, ByteAt, RanVencryptSubtype, TurnedDown, OverlongSasl;
      ghost var hadTls := tls;
      ok := VencryptStart();
      if !ok {
        Settles(ok);
        return;
      }
      ok := VencryptExchange(hadTls);
      if rd.stop { Settles(ok); }
    }

    /** Its second switch. */
    method VencryptExchange(ghost hadTls: bool) returns (ok: bool)
      requires Valid() && Fresh() && authType == VENCRYPT && VENCRYPT_PLAIN <= authSubtype <= VENCRYPT_TLSSASL
      requires !rd.stop ==> !wantUsername && !wantPassword && (authSubtype == VENCRYPT_X509NONE ==> wantX509 || hadTls)
      modifies `username, `password, `x509, `authType, `authSubtype, `crashed, `misused, rd`stop, `sent, `excused, `pauses, `user, `gaps,
               `wantUsername, `wantPassword, `wantX509, `library, `asked, `missed, `nulled, `zeroed, `sasl,
               rd.Repr()
      ensures Onward() && Settled(ok) && (Well() ==> RanVencryptSubtype(Done(), old(sent), old(Input()), hadTls))
      ensures rd.stop ==> old(rd.stop) || excused || TurnedDown() || (!ok && 263 <= authSubtype && OverlongSasl(old(Input())))
    {
      hide Reader.Usable, Input, Misuse, IsLeft, Drops, Settled, Take, Skip, RanVnc, RanPlain, RanSasl;
      ghost var use;
      if authSubtype == VENCRYPT_TLSNONE || authSubtype == VENCRYPT_X509NONE {
        ok := CheckAuthResult();
      } else if authSubtype == VENCRYPT_TLSVNC || authSubtype == VENCRYPT_X509VNC {
        ok, use := AuthVnc();
      } else if authSubtype == VENCRYPT_TLSSASL || authSubtype == VENCRYPT_X509SASL {
        ok := AuthSasl();
      } else {
        ok, use := AuthPlain();
      }
    }

    method VencryptVersion() returns (ok: bool)
      requires Valid() && authType == VENCRYPT
      modifies `username, `password, `x509, `authType, `authSubtype, `crashed, `misused, rd`stop, `sent, `excused, `pauses, `library, rd.Repr()
      ensures Unasked() && TookUnless(3, !ok && ((ByteAt(old(Input()), 0) != 0 && ByteAt(old(Input()), 1) != 2)
                || ByteAt(old(Input()), 2) != 0)) && (!ok ==> rd.stop) && authType == VENCRYPT
      ensures !rd.stop ==> (ByteAt(old(Input()), 0) == 0 || ByteAt(old(Input()), 1) == 2) && ByteAt(old(Input()), 2) == 0
      ensures !rd.stop ==> sent == old(sent) + [Agrees(ByteAt(old(Input()), 0), ByteAt(old(Input()), 1))]
    {
      hide Reader.Usable, Misuse, IsLeft, Input, Take;
      ghost var f := Input();
      SkipNothing(f);
      SkipTwice(f, 1, 1);
      SkipTwice(f, 2, 1);
      var vmajor := Byte();
      var vminor := Byte();
      if vmajor != 0 && vminor != 2 {
        SetError();
        return false;
      }
      Send(Agrees(vmajor, vminor));
      var status := Byte();
      if status != 0 {
        SetError();
        return false;
      }
      ok := true;
    }

    /** The subtypes are read, and one is chosen. */
    method VencryptChoose(nauth: nat) returns (ok: bool)
      requires Valid() && authType == VENCRYPT
      modifies `username, `password, `x509, `authType, `authSubtype, `crashed, `misused, rd`stop, `excused, `user, `gaps, `pauses,
               `offeredSub, rd.Repr()
      ensures Unasked() && TookUnless(4 * nauth, !ok && (20 < nauth || !(256 <= authSubtype <= 264)))
                && (!rd.stop ==> |offeredSub| == nauth <= 20 && Lists(offeredSub, old(Input()), 4))
      ensures (!ok ==> rd.stop) && (ok ==> authType == VENCRYPT && VENCRYPT_PLAIN <= authSubtype <= VENCRYPT_TLSSASL)
    {
      hide Reader.Usable, Input, Misuse, IsLeft, Take, Lists, Skip;
      if 20 < nauth {
        SetError();
        return false;
      }
      offeredSub := Types(nauth, 4);
      if rd.stop {
        return false;
      }
      WaitForSubtype();
      if rd.stop {
        return false;
      }
      ok := VENCRYPT_PLAIN <= authSubtype <= VENCRYPT_TLSSASL;
      if !ok {
        SetError();
      }
    }

    /** Version and subtype are agreed on. */
    method VencryptSubtype() returns (ok: bool)
      requires Valid() && authType == VENCRYPT
      modifies `username, `password, `x509, `authType, `authSubtype, `crashed, `misused, rd`stop, `sent, `excused, `user, `gaps, `pauses, `offeredSub,
               `library, rd.Repr()
      ensures TookUnless(4 + 4 * ByteAt(old(Input()), 3), !ok && Ill(Done(), old(Input())))
      ensures !rd.stop ==> !Ill(Done(), old(Input())) && |offeredSub| == ByteAt(old(Input()), 3) && Lists(offeredSub, Skip(old(Input()), 4), 4)
      ensures Unasked() && (!ok ==> rd.stop) && (ok ==> authType == VENCRYPT && VENCRYPT_PLAIN <= authSubtype <= VENCRYPT_TLSSASL)
      ensures !rd.stop ==> sent == old(sent) + [Agrees(ByteAt(old(Input()), 0), ByteAt(old(Input()), 1))]
    {
      hide Reader.Usable, Input, Misuse, IsLeft, Take, Lists, Skip;
      ghost var f := Input();
      ok := VencryptVersion();
      if !ok {
        return;
      }
      SkipTwice(f, 3, 1);
      var nauth: nat := Byte();
      assert !rd.stop ==> nauth == ByteAt(f, 3);
      SkipTwice(f, 4, 4 * nauth);
      ok := VencryptChoose(nauth);
    }

    /** The server accepts the subtype, and TLS is started if it asks for that. */
    method VencryptStart() returns (ok: bool)
      requires Valid() && Fresh() && authType == VENCRYPT && VENCRYPT_PLAIN <= authSubtype <= VENCRYPT_TLSSASL
      requires !wantUsername && !wantPassword
      modifies `username, `password, `x509, `authType, `authSubtype, `crashed, `misused, rd`stop, `sent, `excused, `user, `gaps, `pauses,
               `wantUsername, `wantPassword, `wantX509, `library, `tls, rd.Repr()
      ensures TookUnless(1, !ok && ByteAt(old(Input()), 0) != 1) && (!rd.stop ==> !wantUsername && !wantPassword)
      ensures !rd.stop ==> ByteAt(old(Input()), 0) == 1
      ensures !rd.stop && !old(tls) ==> wantX509 == (260 <= authSubtype <= 263 || old(wantX509))
      ensures Unasked() && (!ok ==> rd.stop) && authType == VENCRYPT && authSubtype == old(authSubtype)
      ensures !rd.stop ==> sent == old(sent) + [Subchoice(authSubtype)]
    {
      hide Reader.Usable, Misuse, IsLeft, Drops, Input, Take, Skip;
      SkipNothing(Input());
      var waited;
      ok, waited := GatherCredentials();
      if !ok {
        return;
      }
      ok := TellSubtype();
      if !ok {
        return;
      }
      if authSubtype != VENCRYPT_PLAIN {
        ok := StartTls(authSubtype in {VENCRYPT_TLSNONE, VENCRYPT_TLSPLAIN, VENCRYPT_TLSVNC, VENCRYPT_TLSSASL});
      }
    }

    /** The server is told the subtype, and answers. */
    method TellSubtype() returns (ok: bool)
      requires Valid() && authType == VENCRYPT && authSubtype != INVALID
      modifies `username, `password, `x509, `authType, `authSubtype, `crashed, `misused, rd`stop, `sent, `excused, `pauses, `library, rd.Repr()
      ensures Unasked() && TookUnless(1, !ok && ByteAt(old(Input()), 0) != 1) && (!ok ==> rd.stop)
      ensures !rd.stop ==> ByteAt(old(Input()), 0) == 1 && sent == old(sent) + [Subchoice(authSubtype)]
    {
      hide Reader.Usable, Misuse, IsLeft, Input, Take, Skip;
      ByteFirst(Input());
      Send(Subchoice(authSubtype));
      var status := Byte();
      ok := status == 1;
      if !ok {
        SetError();
      }
    }

    /** Announce the types, and wait until one has been chosen. */
    method WaitForType()
      requires Valid()
      modifies `username, `password, `x509, `authType, `authSubtype, `crashed, `misused, rd`stop, `excused, `user, `gaps
      ensures Unasked() && Still() && (authType != INVALID || rd.stop)
    {
      hide Reader.Usable, Misuse, IsLeft;
      VisitMainLoop();
      if rd.stop || authType != INVALID {
        return;
      }
      while !(rd.stop || authType != INVALID)
        invariant Unasked() && Still()
        decreases |user|, !rd.stop
      {
        VisitMainLoop();
      }
      Gap();
    }

    /** `vnc_connection_perform_auth` */
    method PerformAuth() returns (ok: bool)
      requires Valid() && Fresh() && !wantUsername && !wantPassword
      modifies `username, `password, `x509, `authType, `authSubtype, `crashed, `misused, rd`stop, `sent, `excused, `pauses, `user, `gaps,
               `wantUsername, `wantPassword, `wantX509, `library, `asked, `missed, `nulled, `zeroed, `sasl, `tls,
               `offeredSub, `refused, `offered, rd.Repr()
      ensures Onward() && Settled(ok) && (Well() ==> RanAuth(Done(), old(sent), old(Input()), old(tls)))
      ensures rd.stop ==> old(rd.stop) || excused || TurnedDown() || (!ok && ObjectsToTypes(Done(), old(Input())))
    {
      hide Reader.Usable, Input, Misuse, IsLeft, Settled, Well, Take, Skip, Lists, RanChosen, Objects, TurnedDown;
      ok := Demand();
      if !ok {
        Settles(ok);
        return;
      }
      if 6 < minor {
        ok := PerformListed();
      } else {
        ok := PerformOffered(1, 4);
        assert old(sent) + [] == old(sent);
      }
      if rd.stop { Settles(ok); }
    }

    /** ... from protocol 3.7 on, with a list of types. */
    method PerformListed() returns (ok: bool)
      requires Valid() && Fresh() && !wantUsername && !wantPassword && 6 < minor
      modifies `username, `password, `x509, `authType, `authSubtype, `crashed, `misused, rd`stop, `sent, `excused, `pauses, `user, `gaps,
               `wantUsername, `wantPassword, `wantX509, `library, `asked, `missed, `nulled, `zeroed, `sasl, `tls,
               `offeredSub, `refused, `offered, rd.Repr()
      ensures Onward() && Settled(ok) && (Well() ==> RanAuth(Done(), old(sent), old(Input()), old(tls)))
      ensures rd.stop ==> old(rd.stop) || excused || TurnedDown() || (!ok && ObjectsToTypes(Done(), old(Input())))
    {
      hide Reader.Usable, Input, Misuse, IsLeft, Settled, Well, Take, Skip, Lists, RanChosen, Objects, TurnedDown;
      ghost var f := Input();
      ByteFirst(f);
      var nauth := Byte();
      if rd.stop {
        Settles(false);
        return false;
      }
      if nauth == 0 {
        ok := Refused();
        if rd.stop { Settles(ok); }
        return;
      }
      if 40 < nauth {
        SetError();
        Settles(false);
        return false;
      }
      SkipTwice(f, 1, nauth);
      ok := PerformOffered(nauth, 1);
      if rd.stop { Settles(ok); }
    }

    /** The server offers no types. */
    method Refused() returns (ok: bool)
      requires Valid() && Fresh()
      modifies `username, `password, `x509, `authType, `authSubtype, `crashed, `misused, rd`stop, `excused, `pauses, `asked, `refused, rd.Repr()
      ensures Onward() && Settled(ok) && refused && (Well() ==> asked == [old(Input())])
      ensures NothingMissing() && (rd.stop ==> old(rd.stop) || excused || TurnedDown())
    {
      hide Reader.Usable, Input, Misuse, IsLeft, Settled, TurnedDown;
      refused := true;
      ok := CheckAuthResult();
    }

    /** The types are read, and one is chosen and carried out. */
    method PerformOffered(n: nat, width: nat) returns (ok: bool)
      requires Valid() && Fresh() && !wantUsername && !wantPassword && (width == 1 || width == 4)
      modifies `username, `password, `x509, `authType, `authSubtype, `crashed, `misused, rd`stop, `sent, `excused, `pauses, `user, `gaps,
               `wantUsername, `wantPassword, `wantX509, `library, `asked, `missed, `nulled, `zeroed, `sasl, `tls,
               `offeredSub, `refused, `offered, rd.Repr()
      ensures Onward() && Settled(ok)
      ensures Well() ==>
                |offered| == n && Lists(offered, old(Input()), width)
                && RanChosen(Done(), old(sent) + (if 6 < minor then [Choice(authType)] else []), Skip(old(Input()), n * width), old(tls))
      ensures rd.stop ==> old(rd.stop) || excused || TurnedDown() || (!ok && Objects(Done(), Skip(old(Input()), n * width)))
    {
      hide Reader.Usable, Input, Misuse, IsLeft, Settled, Well, Take, Lists, RanChosen, Skip, TurnedDown, Objects;
      offered := Types(n, width);
      if rd.stop {
        Settles(false);
        return false;
      }
      ok := Choose();
      if !ok {
        Settles(ok);
        return;
      }
      ok := PerformChosen();
      if rd.stop { Settles(ok); }
    }

    /** The types are announced, one is chosen, and the server told. */
    method Choose() returns (ok: bool)
      requires Valid() && Fresh() && !wantUsername && !wantPassword
      modifies `username, `password, `x509, `authType, `authSubtype, `crashed, `misused, rd`stop, `sent, `excused, `user, `gaps, `pauses,
               `library, rd.Repr()
      ensures Unasked() && Still() && (!ok ==> rd.stop) && (ok ==> authType != INVALID)
      ensures !rd.stop ==> sent == old(sent) + if 6 < minor then [Choice(authType)] else []
    {
      hide Reader.Usable, Misuse, IsLeft, Drops;
      WaitForType();
      if rd.stop {
        return false;
      }
      var waited;
      ok, waited := GatherCredentials();
      if ok && 6 < minor {
        Send(Choice(authType));
      }
    }

    /** Its switch. */
    method PerformChosen() returns (ok: bool)
      requires Valid() && Fresh() && !wantUsername && !wantPassword && authType != INVALID
      modifies `username, `password, `x509, `authType, `authSubtype, `crashed, `misused, rd`stop, `sent, `excused, `pauses, `user, `gaps,
               `wantUsername, `wantPassword, `wantX509, `library, `asked, `missed, `nulled, `zeroed, `sasl, `tls,
               `offeredSub, `refused, rd.Repr()
      ensures Onward() && Settled(ok) && (Well() ==> RanChosen(Done(), old(sent), old(Input()), old(tls)))
      ensures rd.stop ==> old(rd.stop) || excused || TurnedDown() || (!ok && Objects(Done(), old(Input())))
    {
      hide Reader.Usable, Input, Misuse, IsLeft, Drops, Take, RanVnc, RanTls, RanVencrypt, RanSasl, RanArd, RanMsLogon, TurnedDown,
           OverlongSasl, Skip, Ill, MsLogonModulus, Zero, RanPlain;
      ghost var use;
      if authType == NONE {
        if minor == 8 {
          ok := CheckAuthResult();
        } else {
          ok := true;
        }
      } else if authType == VNC {
        ok, use := AuthVnc();
      } else if authType == TLS {
        if minor < 7 {
          SetError();
          return false;
        }
        ok := AuthTls();
      } else if authType == VENCRYPT {
        ok := AuthVencrypt();
      } else if authType == SASL {
        ok := AuthSasl();
      } else if authType == MSLOGONII || authType == MSLOGON {
        ok, use := AuthMsLogon();
      } else if authType == ARD {
        ok, use := AuthArd();
      } else {
        VisitMainLoop();
        SetError();
        ok := false;
      }
    }

    /** `vnc_connection_before_version` */
    predicate Before(a: int, b: int)
      reads this
    {
      major < a || (major == a && minor < b)
    }

    /** What of it is there. */
    method FetchVersion() returns (version: seq<byte>)
      requires Valid()
      modifies rd`stop, `excused, `partial, `library, rd.Repr()
      ensures Valid() && Took(12) && (!rd.stop ==> version == Take(old(Input()), 12).0)
      ensures (old(rd.stop) ==> rd.stop) && (old(excused) ==> excused)
      ensures library == (if partial <= |old(library)| then old(library)[partial..] else []) && (!rd.stop ==> Flushes(old(library), partial))
    {
      version, partial := rd.ReadGreeting(library);
      library := if partial <= |library| then library[partial..] else [];
      excused := excused || rd.stop;
      if !rd.stop {
        TakePrefix(version, rd.Rest());
      }
    }

    /** The server's version. */
    method ReadVersion() returns (version: seq<byte>)
      requires Valid()
      modifies `username, `password, `x509, `authType, `authSubtype, `crashed, `misused, rd`stop, `excused, `pauses, `partial, `library, rd.Repr()
      ensures Valid() && Took(12) && (!rd.stop ==> version == Take(old(Input()), 12).0)
      ensures pauses == if old(pauses) == [] then [] else old(pauses)[1..]
    {
      hide Misuse, IsLeft, Reader.Usable, Input, Take;
      Pause();
      version := FetchVersion();
    }

    /** The greeting and the choice of a version, the first part of `vnc_connection_initialize`. */
    method Negotiate() returns (ok: bool)
      requires Valid()
      modifies `username, `password, `x509, `authType, `authSubtype, `crashed, `misused, rd`stop, `sent, `excused, `pauses,
               `major, `minor, `partial, `library, rd.Repr()
      ensures Valid() && (!ok ==> rd.stop) && (ok ==> minor in {3, 7, 8})
      ensures !rd.stop ==> Input() == Skip(old(Input()), 12) && Agreed(minor, parseVersion(Take(old(Input()), 12).0))
      ensures rd.stop ==> old(rd.stop) || excused || NoneAgreed(parseVersion(Take(old(Input()), 12).0))
      ensures !rd.stop ==> sent == old(sent) + [Version(minor)]
    {
      hide Misuse, IsLeft, Agreed, NoneAgreed, Reader.Usable, Input, Take;
      var version;
      version := ReadVersion();
      if rd.stop {
        return false;
      }
      ok := ChooseVersion(version);
      if ok {
        Send(Version(minor));
      }
    }

    method ChooseVersion(version: seq<byte>) returns (ok: bool)
      requires Valid()
      modifies `username, `password, `x509, `authType, `authSubtype, `crashed, `misused, rd`stop, `excused, `pauses,
               `major, `minor
      ensures Valid() && (ok ==> minor in {3, 7, 8})
      ensures if ok then Agreed(minor, parseVersion(version)) && major == 3 && Input() == old(Input()) && rd.stop == old(rd.stop)
              else rd.stop && NoneAgreed(parseVersion(version))
    {
      hide Misuse, IsLeft;
      var parsed := parseVersion(version);
      if parsed.None? {
        SetError();
        return false;
      }
      major, minor := parsed.value.0, parsed.value.1;
      if Before(3, 3) {
        SetError();
        return false;
      } else if Before(3, 7) {
        minor := 3;
      } else if !Before(3, 9) {
        major, minor := 3, 8;
      }
      ok := true;
    }

    /** ServerInit (section 7.3.2 of RFC 6143), its last part. */
    method ReadServerInit() returns (ok: bool)
      requires Valid()
      modifies `username, `password, `x509, `authType, `authSubtype, `crashed, `misused, rd`stop, `sent, `excused, `pauses,
               `library, `initAt, rd.Repr()
      ensures Unasked() && (ok <==> !rd.stop) && initAt == Some(old(Input()))
      ensures var n := U32(Take(Skip(old(Input()), 20), 4).0); TookUnless(24 + n, 4096 < n) && (!rd.stop ==> n <= 4096)
      ensures !rd.stop ==> sent == old(sent) + [Shared]
    {
      hide Reader.Usable, Input, Misuse, IsLeft, Take, U32;
      ghost var f := Input();
      initAt := Some(f);
      SkipTwice(f, 4, 16);
      SkipTwice(f, 20, 4);
      SkipTwice(f, 24, U32(Take(Skip(f, 20), 4).0));
      Send(Shared);
      var size := Bytes(4);
      if rd.stop {
        return false;
      }
      var format := Bytes(16);
      var length := Long();
      if 4096 < length {
        SetError();
        return false;
      }
      var name := Bytes(length);
      ok := !rd.stop;
    }

    /** ... which leaves what has been decided as it is. */
    method AwaitServerInit() returns (ok: bool)
      requires Valid()
      modifies `username, `password, `x509, `authType, `authSubtype, `crashed, `misused, rd`stop, `sent, `excused, `pauses,
               `library, `initAt, rd.Repr()
      ensures Unasked() && (ok <==> !rd.stop) && initAt == Some(old(Input())) && (!rd.stop ==> sent == old(sent) + [Shared])
      ensures rd.stop ==> old(rd.stop) || excused || LongName()
      ensures (old(LetIn()) ==> LetIn()) && (old(TurnedDown()) ==> TurnedDown())
    {
      hide Misuse, IsLeft, Reader.Usable, Input, Take, Skip, U32, Grants, RefusesAtLength, AuthResult;
      ok := ReadServerInit();
    }

    /** Version and authentication. */
    method Opening() returns (ok: bool)
      requires Valid() && Fresh() && !wantUsername && !wantPassword
      modifies this, rd.Repr()
      ensures Valid() && signals == old(signals) && initAt == old(initAt) && (ok ==> minor in {3, 7, 8})
                && (!crashed && !rd.stop ==> LetIn() && minor in {3, 7, 8})
      ensures Well() ==>
                minor in {3, 7, 8} && Agreed(minor, parseVersion(Take(old(Input()), 12).0))
                && RanAuth(Done(), old(sent) + [Version(minor)], Skip(old(Input()), 12), old(tls))
      ensures rd.stop ==> old(rd.stop) || excused || TurnedDown() || (!ok && ObjectsToTypes(Done(), Skip(old(Input()), 12)))
                          || NoneAgreed(parseVersion(Take(old(Input()), 12).0))
    {
      hide Misuse, IsLeft, Reader.Usable, Input, Take, Skip, Agreed, NoneAgreed, RanAuth, ObjectsToTypes;
      ok := Negotiate();
      if ok {
        ok := PerformAuth();
      }
    }

    /**
     * `vnc_connection_initialize`: unless the program has crashed it is TRUE
     * exactly if the connection is up, and then the server accepted, but for
     * the four cases.
     */
    method Initialize() returns (ok: bool)
      requires Valid() && Fresh() && !wantUsername && !wantPassword
      modifies this, rd.Repr()
      ensures Valid() && signals == old(signals) && (!crashed ==> (ok <==> !rd.stop))
      ensures Well() && initAt.Some? ==> sent != [] && sent[|sent| - 1] == Shared
      ensures Well() ==>
                Agreed(minor, parseVersion(Take(old(Input()), 12).0))
                && RanAuth(BeforeInit(), old(sent) + [Version(minor)], Skip(old(Input()), 12), old(tls))
      ensures rd.stop ==> old(rd.stop) || excused || TurnedDown() || ObjectsToTypes(Done(), Skip(old(Input()), 12)) || LongName()
                          || NoneAgreed(parseVersion(Take(old(Input()), 12).0))
      ensures ok && !crashed ==> minor in {3, 7, 8} && LetIn()
    {
      hide Misuse, IsLeft, Reader.Usable, Input, Take, Skip, Agreed, NoneAgreed, RanAuth, ObjectsToTypes, U32, LetIn, TurnedDown;
      ghost var f, hadTls := Input(), tls;
      ok := Opening();
      if crashed {
        return false;
      }
      if ok {
        ghost var done, b := Done(), old(sent) + [Version(minor)];
        ok := AwaitServerInit();
        if !rd.stop && RanAuth(done, b, Skip(f, 12), hadTls) { RanStays(done, BeforeInit(), b, Skip(f, 12), hadTls); }
      } else {
        ok := !rd.stop;          // the label `fail`
      }
    }

    /** A signal, whose handlers the coroutine waits for. */
    method Emit(signal: Signal)
      requires Valid()
      modifies `username, `password, `x509, `authType, `authSubtype, `crashed, `misused, rd`stop, `excused, `pauses, `signals
      ensures Valid() && signals == old(signals) + [signal] && (old(LetIn()) ==> LetIn()) && (old(Fresh()) ==> Fresh())
      ensures wantUsername == old(wantUsername) && wantPassword == old(wantPassword)
      ensures pauses == if old(pauses) == [] then [] else old(pauses)[1..]
    {
      hide Misuse, IsLeft, Reader.Usable, Grants, RefusesAtLength;
      signals := signals + [signal];
      Pause();
    }

    /** `vnc_connection_coroutine`, without its message loop: "initialized" is emitted only after acceptance, but for the same four cases. */
    method Coroutine(connected: bool)
      requires Valid() && Fresh() && !crashed && !wantUsername && !wantPassword && signals == []
      modifies this, rd.Repr()
      ensures Valid() && (!crashed ==> signals != [] && signals[|signals| - 1] == Disconnected)
      ensures Initialized in signals ==> connected && LetIn()
    {
      hide Misuse, IsLeft, Reader.Usable, LetIn, Fresh;
      if connected {
        Emit(Connected);
        if crashed {
          return;
        }
        var ok := Initialize();
        if crashed {
          return;
        }
        if ok {
          Emit(Initialized);
          if crashed {
            return;
          }
        }
      }
      Emit(Disconnected);
    }
  }
}
