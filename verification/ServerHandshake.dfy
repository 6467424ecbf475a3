/**
 The server's handshake and session on one connection. The handshake reads into a buffer of
 its own, which is dropped when it is done, so here it does matter where chunks end: what a
 client sends ahead is lost with the buffer.
 */
module ServerHandshake {
  import opened Bytes
  import opened Framing
  import opened Wire
  import opened Decode
  import opened Utf8
  import opened ServerReader

  const SSL_REQUEST := 80877103
  const GSSENC_REQUEST := 80877104
  const PROTOCOL_3 := 196608
  const PASSWORD: Byte := 112 // 'p'

  // ---------- the startup packet ----------

  /** A startup packet is its own length word, protocol and parameters, without a type byte. */
  function NextStartup(s: seq<Byte>, broken: bool): Taken<seq<Byte>> {
    var short := if broken then Threw else Nothing;
    if |s| < 4 then Taken(short, s) else
    var len := ReadBe32(s[..4]);
    if len < 8 || len >= 10000 then Taken(Nothing, s)
    else if |s| < len then Taken(short, s)
    else Taken(Got(s[4..len]), s[len..])
  }

  method ReadStartup(conn: Connection, pending: seq<Byte>) returns (m: Read<seq<Byte>>, buffered: seq<Byte>)
    modifies conn`incoming
    ensures var t := NextStartup(pending + old(conn.Stream()), conn.broken);
            m == t.read && buffered + conn.Stream() == t.rest
    ensures m.Got? ==> |m.value| >= 4 && conn.incoming == Left(old(conn.incoming), |pending|, 4 + |m.value|)
    ensures m.Got? ==> |pending| + |old(conn.Stream())| == 4 + |m.value| + |buffered| + |conn.Stream()|
  {
    hide ReadBe32, Flatten;
    ghost var s := pending + conn.Stream();
    var enough;
    enough, buffered := Fill(conn, pending, 4);
    if !enough.Got? {
      assert buffered + [] == buffered;
      return if enough.Threw? then Threw else Nothing, buffered;
    }
    var len := ReadBe32(buffered[..4]);
    assert s[..4] == buffered[..4];
    if !(len >= 8 && len < 10000) {
      return Nothing, buffered;
    }
    enough, buffered := Fill(conn, buffered, len);
    if !enough.Got? {
      assert buffered + [] == buffered;
      return if enough.Threw? then Threw else Nothing, buffered;
    }
    assert s[4..len] == buffered[4..len];
    assert s[len..] == buffered[len..] + conn.Stream();
    m := Got(buffered[4..len]);
    buffered := buffered[len..];
  }

  // ---------- the handshake ----------

  /** Passed carries the chunks the session will read from, and how many sends it has left. */
  datatype Verdict = Passed(chunks: seq<seq<Byte>>, sends: nat) | Refused | Broke

  predicate WantsEncryption(protocol: nat) {
    protocol == SSL_REQUEST || protocol == GSSENC_REQUEST
  }

  /** The password offered, or nothing if it is not terminated or not UTF-8. */
  function Offered(body: seq<Byte>): seq<Byte> {
    var text := TextAt(body, 0);
    if text.Some? then text.value else []
  }

  /** The answer to the challenge, and the error message or preamble it is answered with in turn. */
  function Challenge(s: seq<Byte>, broken: bool, expected: seq<Byte>, sends: nat): Read<nat> {
    match NextMessage(s, broken).read
    case Threw => Threw
    case Nothing => Nothing
    case Got(pw) =>
      if pw.kind != PASSWORD then Nothing
      else if sends == 0 then Threw
      else if Offered(pw.body) == expected then Got(|pw.raw|)
      else Nothing
  }

  /**
   The handshake of a client that sends these chunks, where `expected` answers the challenge and
   so many sends succeed: an answer to each encryption request, the challenge, and the error
   message or preamble.
   */
  function HandshakeOf(chunks: seq<seq<Byte>>, broken: bool, expected: seq<Byte>, sends: nat): Verdict
    decreases |chunks|
  {
    var t := NextStartup(Flatten(chunks), broken);
    match t.read
    case Threw => Broke
    case Nothing => Refused
    case Got(startup) =>
      var protocol := ReadBe32(startup);
      if WantsEncryption(protocol) then
        if sends == 0 then Broke
        else HandshakeOf(Left(chunks, 0, 4 + |startup|), broken, expected, sends - 1)
      else if protocol != PROTOCOL_3 then Refused
      else if sends == 0 then Broke
      else
        match Challenge(t.rest, broken, expected, sends - 1)
        case Threw => Broke
        case Nothing => Refused
        case Got(n) => Passed(Left(chunks, 0, 4 + |startup| + n), sends - 2)
  }

  /** Reading on is reading from the start with a larger need. */
  lemma {:induction false} LeftAgain(chunks: seq<seq<Byte>>, have: nat, need: nat, more: nat)
    requires have + |Flatten(chunks)| >= need
    ensures |Flatten(Left(chunks, have, need))| <= |Flatten(chunks)|
    ensures var c := Left(chunks, have, need);
            var got := have + |Flatten(chunks)| - |Flatten(c)|;
            got >= need && Left(chunks, have, need + more) == Left(c, got - need, more)
    decreases |chunks|
  {
    if have < need && chunks != [] {
      LeftAgain(chunks[1..], have + |chunks[0]|, need, more);
    } else {
      LeftMoved(chunks, have, need, more);
    }
  }

  lemma {:induction false} LeftMoved(chunks: seq<seq<Byte>>, have: nat, need: nat, more: nat)
    requires have >= need
    ensures Left(chunks, have, need + more) == Left(chunks, have - need, more)
    decreases |chunks|
  {
    if have < need + more && chunks != [] {
      LeftMoved(chunks[1..], have + |chunks[0]|, need, more);
    }
  }

  method Handshake(conn: Connection, expected: seq<Byte>) returns (v: Read<bool>)
    modifies conn
    ensures match HandshakeOf(old(conn.incoming), conn.broken, expected, old(conn.sends))
            case Broke => v == Threw
            case Refused => v == Got(false)
            case Passed(left, sends) => v == Got(true) && conn.incoming == left && conn.sends == sends
    decreases |conn.incoming|
  {
    hide NextStartup, NextMessage, ReadBe32, Challenge;
    var startup, pending := ReadStartup(conn, []);
    assert [] + old(conn.Stream()) == old(conn.Stream());
    if !startup.Got? {
      return if startup.Threw? then Threw else Got(false);
    }
    var protocol := ReadBe32(startup.value[..4]);
    FirstFour(startup.value);
    if WantsEncryption(protocol) {
      var threw := conn.Send();
      if threw {
        return Threw;
      }
      EmptyFlat(old(conn.incoming));
      v := Handshake(conn, expected);
      return;
    }
    if protocol != PROTOCOL_3 {
      return Got(false);
    }
    var threw := conn.Send();
    if threw {
      return Threw;
    }
    ghost var n := 4 + |startup.value|;
    LeftAgain(old(conn.incoming), 0, n, 0);
    ghost var t := Challenge(pending + conn.Stream(), conn.broken, expected, conn.sends);
    if t.Got? {
      LeftAgain(old(conn.incoming), 0, n, t.value);
    }
    v := AnswerChallenge(conn, pending, expected);
  }

  method AnswerChallenge(conn: Connection, pending: seq<Byte>, expected: seq<Byte>) returns (v: Read<bool>)
    modifies conn
    ensures match Challenge(pending + old(conn.Stream()), conn.broken, expected, old(conn.sends))
            case Threw => v == Threw
            case Nothing => v == Got(false)
            case Got(n) =>
              v == Got(true) && conn.incoming == Left(old(conn.incoming), |pending|, n)
              && conn.sends == old(conn.sends) - 1
  {
    hide NextMessage;
    var pw, later := ReadMessage(conn, pending);
    if !pw.Got? {
      return if pw.Threw? then Threw else Got(false);
    }
    if pw.value.kind != PASSWORD {
      return Got(false);
    }
    var r := new Reader(pw.value.body);
    var offered := r.CString();
    var right := (if offered.Some? then offered.value else []) == expected;
    var threw := conn.Send();
    return if threw then Threw else Got(right);
  }

  lemma FirstFour(s: seq<Byte>)
    requires |s| >= 4
    ensures ReadBe32(s[..4]) == ReadBe32(s)
  {
  }

  lemma EmptyFlat(chunks: seq<seq<Byte>>)
    ensures Flatten(chunks) != [] ==> chunks != []
  {
  }

  // ---------- what a client gets through ----------

  function StartupPacket(protocol: nat, params: seq<Byte>): seq<Byte>
    requires protocol < TWO_32 && 8 + |params| < 10000
  {
    Be32(8 + |params|) + Be32(protocol) + params
  }

  function PasswordMessage(password: seq<Byte>): seq<Byte>
    requires |password| + 5 < TWO_32
  {
    Encode(Frame(PASSWORD, CStringBytes(password)))
  }

  /** A startup packet is its size and its protocol, big-endian, and its parameters; the numbers that count. */
  lemma StartupTold(protocol: nat, params: seq<Byte>)
    requires protocol < 0x1_0000_0000 && 8 + |params| < 10000
    ensures var n := 8 + |params|;
            StartupPacket(protocol, params) ==
            [0, 0, n / 0x100, n % 0x100]
            + [protocol / 0x100_0000, protocol / 0x1_0000 % 0x100, protocol / 0x100 % 0x100, protocol % 0x100] + params
    ensures WantsEncryption(protocol) <==> protocol == 80877103 || protocol == 80877104
    ensures PROTOCOL_3 == 196608 && SSL_REQUEST == 80877103 && GSSENC_REQUEST == 80877104 && PASSWORD == 'p' as int
  {
    BigEndian(8 + |params|);
    BigEndian(protocol);
  }

  /** A size below 8, or of 10000 and more, is refused at once. */
  lemma BadSizeRefused(chunks: seq<seq<Byte>>, broken: bool, expected: seq<Byte>, sends: nat)
    requires |Flatten(chunks)| >= 4
    requires ReadBe32(Flatten(chunks)[..4]) < 8 || ReadBe32(Flatten(chunks)[..4]) >= 10000
    ensures HandshakeOf(chunks, broken, expected, sends) == Refused
  {
    hide ReadBe32, Flatten;
  }

  lemma StartupReadsBack(protocol: nat, params: seq<Byte>, rest: seq<Byte>, broken: bool)
    requires protocol < TWO_32 && 8 + |params| < 10000
    ensures NextStartup(StartupPacket(protocol, params) + rest, broken)
            == Taken(Got(Be32(protocol) + params), rest)
    ensures ReadBe32(Be32(protocol) + params) == protocol
    ensures |StartupPacket(protocol, params)| == 8 + |params|
  {
    hide ReadBe32, Be32;
    var len := 8 + |params|;
    var p := StartupPacket(protocol, params);
    var s := p + rest;
    Be32RoundTrip(len, []);
    Be32RoundTrip(protocol, params);
    assert s[..4] == Be32(len) == Be32(len) + [];
    assert p[4..] == Be32(protocol) + params;
    assert s[4..len] == p[4..];
    assert s[len..] == rest;
  }

  lemma PasswordReadsBack(password: seq<Byte>, expected: seq<Byte>, rest: seq<Byte>, broken: bool, sends: nat)
    requires |password| + 5 < TWO_32 && 0 !in password && expected != [] && IsUtf8(expected)
    ensures Challenge(PasswordMessage(password) + rest, broken, expected, sends) ==
            if sends == 0 then Threw
            else if password == expected then Got(|PasswordMessage(password)|) else Nothing
  {
    hide Encode, HasFrame, LengthWord, IsUtf8, NulFrom;
    var f := Frame(PASSWORD, CStringBytes(password));
    EncodeThenFirst(f, rest);
    FirstThenEncode(Encode(f) + rest);
    var none: seq<Byte> := [];
    CStringBack(none, password, none);
    assert none + CStringBytes(password) + none == f.body;
  }

  /** The answer the server expects: "md5" and 32 lower-case hex digits. */
  predicate IsMd5Answer(s: seq<Byte>) {
    |s| == 35 && s[..3] == [109, 100, 53] &&
    forall k :: 3 <= k < 35 ==> 48 <= s[k] <= 57 || 97 <= s[k] <= 102
  }

  /** Such an answer is a text that a password message can carry. */
  lemma Md5AnswerIsText(s: seq<Byte>)
    requires IsMd5Answer(s)
    ensures s != [] && IsUtf8(s) && 0 !in s
  {
    assert forall k :: 0 <= k < 3 ==> s[k] == s[..3][k];
    AsciiIsUtf8(s);
  }

  /**
   A client that sends its startup packet and a password passes exactly with the right password
   and two sends that succeed, and the session reads on behind the chunk that completed them.
   */
  lemma HelloPassesIff(chunks: seq<seq<Byte>>, params: seq<Byte>, password: seq<Byte>, expected: seq<Byte>,
                       after: seq<Byte>, broken: bool, sends: nat)
    requires 8 + |params| < 10000 && |password| + 5 < TWO_32 && 0 !in password
    requires expected != [] && IsUtf8(expected)
    requires Flatten(chunks) == StartupPacket(PROTOCOL_3, params) + PasswordMessage(password) + after
    ensures HandshakeOf(chunks, broken, expected, sends) ==
            if sends < 2 then Broke
            else if password != expected then Refused
            else Passed(Left(chunks, 0, |StartupPacket(PROTOCOL_3, params) + PasswordMessage(password)|), sends - 2)
  {
    hide StartupPacket, PasswordMessage, NextStartup, Challenge, ReadBe32, Left, Flatten, IsUtf8;
    var rest := PasswordMessage(password) + after;
    Assoc(StartupPacket(PROTOCOL_3, params), PasswordMessage(password), after);
    StartupReadsBack(PROTOCOL_3, params, rest, broken);
    if sends > 0 {
      PasswordReadsBack(password, expected, after, broken, sends - 1);
    }
  }

  /** Any protocol but 3.0 and the two encryption requests is refused, whatever follows. */
  lemma OtherProtocolsRefused(chunks: seq<seq<Byte>>, protocol: nat, params: seq<Byte>, after: seq<Byte>,
                              broken: bool, expected: seq<Byte>, sends: nat)
    requires protocol < TWO_32 && 8 + |params| < 10000 && protocol != PROTOCOL_3 && !WantsEncryption(protocol)
    requires Flatten(chunks) == StartupPacket(protocol, params) + after
    ensures HandshakeOf(chunks, broken, expected, sends) == Refused
  {
    hide StartupPacket, NextStartup, ReadBe32, Left, Flatten;
    StartupReadsBack(protocol, params, after, broken);
  }

  /** An encryption request is answered with a fresh start behind the chunk that completed it. */
  lemma EncryptionStartsOver(chunks: seq<seq<Byte>>, protocol: nat, after: seq<Byte>, broken: bool,
                             expected: seq<Byte>, sends: nat)
    requires WantsEncryption(protocol)
    requires Flatten(chunks) == StartupPacket(protocol, []) + after
    ensures HandshakeOf(chunks, broken, expected, sends) ==
            if sends == 0 then Broke else HandshakeOf(Left(chunks, 0, 8), broken, expected, sends - 1)
  {
    hide StartupPacket, NextStartup, ReadBe32, Left, Flatten;
    StartupReadsBack(protocol, [], after, broken);
    assert Be32(protocol) + [] == Be32(protocol);
  }

  // ---------- when a handshake throws ----------

  /** The stream ends inside a startup packet. */
  predicate StartupCutShort(s: seq<Byte>) {
    |s| < 4 || (8 <= ReadBe32(s[..4]) < 10000 && |s| < ReadBe32(s[..4]))
  }

  /** The stream starts with a whole startup packet of this protocol. */
  predicate StartsWith(s: seq<Byte>, protocol: nat) {
    |s| >= 8 && 8 <= ReadBe32(s[..4]) < 10000 && ReadBe32(s[..4]) <= |s| && ReadBe32(s[4..8]) == protocol
  }

  function BehindStartup(s: seq<Byte>): seq<Byte>
    requires |s| >= 4 && ReadBe32(s[..4]) <= |s|
  {
    s[ReadBe32(s[..4])..]
  }

  /** How many encryption requests come first, and the chunks the handshake proper reads. */
  datatype Opened = Opened(requests: nat, chunks: seq<seq<Byte>>)

  function Opening(chunks: seq<seq<Byte>>): Opened
    decreases |chunks|
  {
    var s := Flatten(chunks);
    if StartsWith(s, SSL_REQUEST) || StartsWith(s, GSSENC_REQUEST) then
      var o := Opening(Left(chunks, 0, ReadBe32(s[..4])));
      Opened(o.requests + 1, o.chunks)
    else Opened(0, chunks)
  }

  /**
   The handshake throws: with the answer to an encryption request, inside the startup packet of
   a stream that breaks, with the challenge, inside the password message of a stream that breaks,
   or with the answer to the password. The password itself does not matter.
   */
  predicate Breaks(chunks: seq<seq<Byte>>, broken: bool, sends: nat) {
    var o := Opening(chunks);
    var s := Flatten(o.chunks);
    || sends < o.requests
    || (broken && StartupCutShort(s))
    || (StartsWith(s, PROTOCOL_3) &&
        var t := BehindStartup(s);
        || sends == o.requests
        || (broken && !HasFrame(t) && !BadLength(t))
        || (sends == o.requests + 1 && HasFrame(t) && t[0] == PASSWORD))
  }

  lemma StartupIs(s: seq<Byte>, broken: bool)
    ensures var t := NextStartup(s, broken);
            && (t.read == Threw <==> broken && StartupCutShort(s))
            && (t.read.Got? ==>
                  && |t.read.value| + 4 == ReadBe32(s[..4]) && t.rest == BehindStartup(s)
                  && (forall p :: ReadBe32(t.read.value) == p <==> StartsWith(s, p)))
            && (forall p :: StartsWith(s, p) ==> t.read.Got? && |s| >= 8 && ReadBe32(s[..4]) >= 8)
  {
    hide ReadBe32;
    if NextStartup(s, broken).read.Got? {
      var len := ReadBe32(s[..4]);
      FirstFour(s[4..len]);
      assert s[4..len][..4] == s[4..8];
    }
  }

  /**
   A handshake throws exactly in these cases, told by the bytes of the client, where its chunks
   end behind encryption requests, and the number of sends that succeed.
   */
  lemma {:induction false} BrokeIff(chunks: seq<seq<Byte>>, broken: bool, expected: seq<Byte>, sends: nat)
    ensures HandshakeOf(chunks, broken, expected, sends) == Broke <==> Breaks(chunks, broken, sends)
    decreases |chunks|
  {
    hide NextStartup, StartsWith, StartupCutShort, BehindStartup, ReadBe32, Flatten, HasFrame, BadLength;
    var s := Flatten(chunks);
    StartupIs(s, broken);
    var t := NextStartup(s, broken);
    if StartsWith(s, SSL_REQUEST) || StartsWith(s, GSSENC_REQUEST) {
      var left := Left(chunks, 0, ReadBe32(s[..4]));
      EmptyFlat(chunks);
      if sends > 0 {
        BrokeIff(left, broken, expected, sends - 1);
      }
    }
  }

  /** A handshake passes exactly with the expected password and with every send it makes. */
  lemma {:induction false} PassedIff(chunks: seq<seq<Byte>>, broken: bool, expected: seq<Byte>, sends: nat)
    ensures var v := HandshakeOf(chunks, broken, expected, sends);
            var o := Opening(chunks);
            var s := Flatten(o.chunks);
            && (v.Passed? <==>
                  && sends >= o.requests + 2 && StartsWith(s, PROTOCOL_3)
                  && HasFrame(BehindStartup(s)) && FirstFrame(BehindStartup(s)).kind == PASSWORD
                  && Offered(FirstFrame(BehindStartup(s)).body) == expected)
            && (v.Passed? ==>
                  v == Passed(Left(o.chunks, 0, ReadBe32(s[..4]) + 1 + LengthWord(BehindStartup(s))),
                              sends - o.requests - 2))
    decreases |chunks|
  {
    hide NextStartup, StartsWith, StartupCutShort, ReadBe32, Flatten, BadLength, LengthWord, Offered;
    var s := Flatten(chunks);
    StartupIs(s, broken);
    if StartsWith(s, SSL_REQUEST) || StartsWith(s, GSSENC_REQUEST) {
      EmptyFlat(chunks);
      if sends > 0 {
        PassedIff(Left(chunks, 0, ReadBe32(s[..4])), broken, expected, sends - 1);
      }
    }
  }

  /** Some chunk ends exactly where the first n bytes do. */
  ghost predicate EndsAt(chunks: seq<seq<Byte>>, n: nat) {
    exists k :: 0 <= k <= |chunks| && |Flatten(chunks[..k])| == n
  }

  /** Nothing is lost exactly if a chunk ends where the bytes read end; otherwise the tail of that chunk is. */
  lemma {:induction false} LeftLosesNothingIff(chunks: seq<seq<Byte>>, have: nat, need: nat)
    requires have <= need <= have + |Flatten(chunks)|
    ensures |Flatten(Left(chunks, have, need))| <= have + |Flatten(chunks)| - need
    ensures var rest := Flatten(Left(chunks, have, need)); Flatten(chunks)[|Flatten(chunks)| - |rest|..] == rest
    ensures |Flatten(Left(chunks, have, need))| == have + |Flatten(chunks)| - need <==> EndsAt(chunks, need - have)
    decreases |chunks|
  {
    hide EndsAt;
    if have == need {
      EndsAtStart(chunks);
    } else {
      EmptyFlat(chunks);
      var c, rest := chunks[0], chunks[1..];
      EndsAtCons(chunks, need - have);
      if have + |c| <= need {
        LeftLosesNothingIff(rest, have + |c|, need);
      }
    }
  }

  lemma EndsAtStart(chunks: seq<seq<Byte>>)
    ensures EndsAt(chunks, 0)
  {
    assert |Flatten(chunks[..0])| == 0;
  }

  lemma EndsAtCons(chunks: seq<seq<Byte>>, n: nat)
    requires chunks != [] && n > 0
    ensures EndsAt(chunks, n) <==> n >= |chunks[0]| && EndsAt(chunks[1..], n - |chunks[0]|)
  {
    hide Flatten;
    var c, rest := chunks[0], chunks[1..];
    EmptyFlattens();
    if EndsAt(chunks, n) {
      var k :| 0 <= k <= |chunks| && |Flatten(chunks[..k])| == n;
      assert chunks[..0] == [];
      FlattenPrefix(chunks, k);
    }
    if n >= |c| && EndsAt(rest, n - |c|) {
      var k :| 0 <= k <= |rest| && |Flatten(rest[..k])| == n - |c|;
      FlattenPrefix(chunks, k + 1);
    }
  }

  lemma EmptyFlattens()
    ensures Flatten<Byte>([]) == []
  {
  }

  lemma FlattenPrefix(chunks: seq<seq<Byte>>, k: nat)
    requires 0 < k <= |chunks|
    ensures |Flatten(chunks[..k])| == |chunks[0]| + |Flatten(chunks[1..][..k - 1])|
  {
    assert chunks[..k][1..] == chunks[1..][..k - 1];
  }

  // ---------- the session ----------

  /** The simple query that closes every session. */
  function Rollback(): seq<Byte> {
    Encode(Frame(QUERY, CStringBytes([82, 79, 76, 76, 66, 65, 67, 75])))
  }

  /** It is the query ROLLBACK. */
  lemma RollbackTold()
    ensures Rollback() == ['Q' as int, 0, 0, 0, 13, 'R' as int, 'O' as int, 'L' as int, 'L' as int, 'B' as int,
                           'A' as int, 'C' as int, 'K' as int, 0]
  {
    EncodeTold(Frame(QUERY, CStringBytes([82, 79, 76, 76, 66, 65, 67, 75])));
  }

  /**
   Everything a connection has the engine execute. A handshake that throws skips the check
   for refusal, so its ROLLBACK runs although nobody was authenticated.
   */
  function Exchanges(chunks: seq<seq<Byte>>, broken: bool, expected: seq<Byte>, sends: nat, failsAt: nat)
    : seq<seq<Byte>>
  {
    match HandshakeOf(chunks, broken, expected, sends)
    case Refused => []
    case Broke => [Rollback()]
    case Passed(left, more) =>
      Take(UntilTerminate(Batches(Flatten(left), broken)), Min(failsAt, more) + 1) + [Rollback()]
  }

  method Session(conn: Connection, expected: seq<Byte>, failsAt: nat) returns (sent: seq<seq<Byte>>)
    modifies conn
    ensures sent == Exchanges(old(conn.incoming), conn.broken, expected, old(conn.sends), failsAt)
  {
    hide HandshakeOf, Batches, UntilTerminate, Encode;
    var ok := Handshake(conn, expected);
    sent := [];
    if ok == Got(false) {
      return;
    }
    if ok.Got? {
      sent := Serve(conn, failsAt);
    }
    sent := sent + [Rollback()];
  }

  /**
   Nothing reaches the engine before the handshake passes, except in exactly the cases in which
   the handshake throws; and then it is the ROLLBACK and nothing else.
   */
  lemma UnauthenticatedIff(chunks: seq<seq<Byte>>, broken: bool, expected: seq<Byte>, sends: nat, failsAt: nat)
    requires !HandshakeOf(chunks, broken, expected, sends).Passed?
    ensures Exchanges(chunks, broken, expected, sends, failsAt) ==
            if Breaks(chunks, broken, sends) then [Rollback()] else []
  {
    hide HandshakeOf, Breaks, Rollback;
    BrokeIff(chunks, broken, expected, sends);
  }

  /** A connection that fails before its first byte is such a case, whatever the password. */
  lemma SilentClientRollsBack(expected: seq<Byte>, sends: nat, failsAt: nat)
    ensures HandshakeOf([], true, expected, sends) == Broke
    ensures Exchanges([], true, expected, sends, failsAt) == [Rollback()]
  {
    hide Rollback;
    assert |Flatten<Byte>([])| == 0;
  }

  /** The bytes the handshake proper reads when it passes: startup packet and password message. */
  function HelloSize(s: seq<Byte>): nat
    requires |s| >= 4 && ReadBe32(s[..4]) <= |s| && HasFrame(BehindStartup(s))
  {
    ReadBe32(s[..4]) + 1 + LengthWord(BehindStartup(s))
  }

  lemma HelloFits(s: seq<Byte>)
    requires StartsWith(s, PROTOCOL_3) && HasFrame(BehindStartup(s))
    ensures HelloSize(s) <= |s|
  {
    hide ReadBe32;
  }

  /**
   For every handshake that passes, behind any encryption requests: what reaches the engine is told
   by the bytes behind the password message, whatever the chunks, provided one of them ends where
   that message does; and the session starts on exactly those bytes only then.
   */
  lemma SessionIgnoresChunks(chunks: seq<seq<Byte>>, broken: bool, expected: seq<Byte>, sends: nat, failsAt: nat)
    requires HandshakeOf(chunks, broken, expected, sends).Passed?
    ensures var o := Opening(chunks);
            var s := Flatten(o.chunks);
            && StartsWith(s, PROTOCOL_3) && HasFrame(BehindStartup(s)) && sends >= o.requests + 2
            && HelloSize(s) <= |s|
            && (Flatten(HandshakeOf(chunks, broken, expected, sends).chunks) == s[HelloSize(s)..] <==>
                  EndsAt(o.chunks, HelloSize(s)))
            && (EndsAt(o.chunks, HelloSize(s)) ==>
                  Exchanges(chunks, broken, expected, sends, failsAt) ==
                  Take(UntilTerminate(Batches(s[HelloSize(s)..], broken)), Min(failsAt, sends - o.requests - 2) + 1)
                  + [Rollback()])
  {
    hide StartsWith, HasFrame, Opening, HandshakeOf, Flatten, Left, LengthWord, ReadBe32, Offered, EndsAt, Rollback,
         Batches, UntilTerminate;
    PassedIff(chunks, broken, expected, sends);
    var o := Opening(chunks);
    var s := Flatten(o.chunks);
    PassedStarts(s);
    HelloFits(s);
    LeftLosesNothingIff(o.chunks, 0, HelloSize(s));
  }

  lemma PassedStarts(s: seq<Byte>)
    ensures StartsWith(s, PROTOCOL_3) ==> |s| >= 8 && ReadBe32(s[..4]) <= |s|
  {
  }

  /** In particular for a client that sends its startup packet and the right password. */
  lemma HelloIgnoresChunks(chunks: seq<seq<Byte>>, params: seq<Byte>, password: seq<Byte>, after: seq<Byte>,
                           broken: bool, sends: nat, failsAt: nat)
    requires 8 + |params| < 10000 && |password| + 5 < TWO_32 && 0 !in password
    requires password != [] && IsUtf8(password)
    requires Flatten(chunks) == StartupPacket(PROTOCOL_3, params) + PasswordMessage(password) + after
    requires EndsAt(chunks, |StartupPacket(PROTOCOL_3, params) + PasswordMessage(password)|)
    ensures Exchanges(chunks, broken, password, sends, failsAt) ==
            if sends < 2 then [Rollback()]
            else Take(UntilTerminate(Batches(after, broken)), Min(failsAt, sends - 2) + 1) + [Rollback()]
  {
    hide StartupPacket, PasswordMessage, Batches, UntilTerminate, HandshakeOf, Flatten, Left, Rollback, IsUtf8;
    HelloPassesIff(chunks, params, password, password, after, broken, sends);
    LeftLosesNothingIff(chunks, 0, |StartupPacket(PROTOCOL_3, params) + PasswordMessage(password)|);
  }

  /**
   A query sent ahead in the chunk that completes the password message never reaches the engine;
   in a chunk of its own it does.
   */
  lemma SentAheadIsLost(params: seq<Byte>, password: seq<Byte>, sql: seq<Byte>, sends: nat, failsAt: nat)
    requires 8 + |params| < 10000 && |password| + 5 < TWO_32 && 0 !in password && |sql| + 5 < TWO_32
    requires password != [] && IsUtf8(password) && sends >= 2
    ensures var hello := StartupPacket(PROTOCOL_3, params) + PasswordMessage(password);
            var query := Encode(Frame(QUERY, CStringBytes(sql)));
            && Exchanges([hello + query], false, password, sends, failsAt) == [Rollback()]
            && Exchanges([hello, query], false, password, sends, failsAt) == [query, Rollback()]
  {
    hide StartupPacket, PasswordMessage, HandshakeOf, Encode, Flatten, Left, IsUtf8, Exchanges;
    var hello := StartupPacket(PROTOCOL_3, params) + PasswordMessage(password);
    var query := Encode(Frame(QUERY, CStringBytes(sql)));
    StartupReadsBack(PROTOCOL_3, params, [], false);
    InChunks(hello, query);
    HelloPassesIff([hello + query], params, password, password, query, false, sends);
    HelloPassesIff([hello, query], params, password, password, query, false, sends);
    LastExchanges([hello + query], [], CStringBytes(sql), password, sends, failsAt);
    LastExchanges([hello, query], [query], CStringBytes(sql), password, sends, failsAt);
  }

  /** A session left with nothing, or with one query. */
  lemma LastExchanges(chunks: seq<seq<Byte>>, left: seq<seq<Byte>>, body: seq<Byte>, password: seq<Byte>,
                      sends: nat, failsAt: nat)
    requires |body| + 4 < TWO_32 && sends >= 2
    requires HandshakeOf(chunks, false, password, sends) == Passed(left, sends - 2)
    ensures var query := Encode(Frame(QUERY, body));
            && (left == [] ==> Exchanges(chunks, false, password, sends, failsAt) == [Rollback()])
            && (left == [query] ==> Exchanges(chunks, false, password, sends, failsAt) == [query, Rollback()])
  {
    hide HandshakeOf, Rollback, Encode, Batches, UntilTerminate, Flatten;
    FlatOne(Encode(Frame(QUERY, body)));
    QueryAlone(body);
  }

  lemma InChunks(a: seq<Byte>, b: seq<Byte>)
    requires |a| > 0
    ensures Flatten([a + b]) == a + b && Left([a + b], 0, |a|) == []
    ensures Flatten([a, b]) == a + b && Left([a, b], 0, |a|) == [b]
    ensures Flatten([b]) == b && Flatten<Byte>([]) == []
  {
    hide Flatten;
    FlatOne(a + b);
    FlatOne(b);
    FlatOne(a);
    FlattenSnoc([a], b);
    assert [a] + [b] == [a, b];
    assert [a + b][1..] == [] && [a, b][1..] == [b];
  }

  lemma FlatOne(a: seq<Byte>)
    ensures Flatten([a]) == a && Flatten<Byte>([]) == []
  {
    assert [a][1..] == [];
  }

  lemma QueryAlone(body: seq<Byte>)
    requires |body| + 4 < TWO_32
    ensures var query := Encode(Frame(QUERY, body));
            && UntilTerminate(Batches(query, false)) == [query]
            && UntilTerminate(Batches([], false)) == []
  {
    hide Encode, HasFrame, NextBatch;
    var query := Encode(Frame(QUERY, body));
    var g := [Frame(QUERY, body)];
    EncodeOne(g[0]);
    GroupIsOneBatch(g, [], [], false);
    assert query + [] == query && [] + query == query;
    NoBytes();
    StartsWithKind(Frame(QUERY, body));
    assert Batches(query, false) == [query] + [] == [query];
    var alone := [query];
    assert alone[1..] == [];
  }

  lemma NoBytes()
    ensures !NextBatch([], false, []).read.Got?
  {
  }

  lemma StartsWithKind(f: Frame)
    requires |f.body| + 4 < TWO_32
    ensures |Encode(f)| > 0 && Encode(f)[0] == f.kind
  {
  }
}
