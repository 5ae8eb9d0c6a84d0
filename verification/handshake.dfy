/**
  The password handshake run right after the connection is made
  (`verifyPassword` in server.go, `authenticate` in client.go). Both sides
  right-pad their secret with the character `0` up to MAX_PASSWORD_LENGTH
  (a parameter here); the client sends its padded block, the server reads a
  block of its own padded length, compares, and answers with one byte.
*/
module Handshake {
  import opened LittleEndian
  import opened Wrappers

  /** The padding character `0` (0x30), not the byte 0. */
  const Filler: byte := 48

  /** The padding loop: append `0` while the password is shorter than
      `maxLen`. A longer password is left as it is. */
  function Pad(password: seq<byte>, maxLen: nat): (padded: seq<byte>)
    ensures |padded| == if |password| >= maxLen then |password| else maxLen
    ensures password <= padded
    ensures forall i :: |password| <= i < |padded| ==> padded[i] == Filler
    decreases maxLen - |password|
  {
    if |password| < maxLen then Pad(password + [Filler], maxLen) else password
  }

  /** The password without its trailing `0` characters. */
  function TrimFiller(s: seq<byte>): (t: seq<byte>)
    ensures t <= s
    ensures t == [] || t[|t| - 1] != Filler
    ensures forall i :: |t| <= i < |s| ==> s[i] == Filler
  {
    if |s| > 0 && s[|s| - 1] == Filler then TrimFiller(s[..|s| - 1]) else s
  }

  /** Any prefix that is followed only by `0`s and does not itself end in
      `0` is the trimmed form. */
  lemma {:induction false} TrimFillerUnique(s: seq<byte>, t: seq<byte>)
    requires t <= s && (t == [] || t[|t| - 1] != Filler)
    requires forall i :: |t| <= i < |s| ==> s[i] == Filler
    ensures TrimFiller(s) == t
  {
    if |s| > 0 && s[|s| - 1] == Filler {
      TrimFillerUnique(s[..|s| - 1], t);
    }
  }

  /** Padding first and trimming after gives the trimmed secret; padding the
      trimmed secret gives the same block as padding the secret. */
  lemma PadTrimmed(a: seq<byte>, maxLen: nat)
    requires |a| <= maxLen
    ensures TrimFiller(Pad(a, maxLen)) == TrimFiller(a)
    ensures Pad(TrimFiller(a), maxLen) == Pad(a, maxLen)
  {
    var t, pa := TrimFiller(a), Pad(a, maxLen);
    TrimFillerUnique(pa, t);
    var pt := Pad(t, maxLen);
    forall i | 0 <= i < maxLen
      ensures pt[i] == pa[i]
    {
      if i < |t| {
        assert pt[i] == t[i] == pa[i];
      }
    }
  }

  /** Two secrets no longer than `maxLen` pad to the same block exactly when
      they agree once trailing `0`s are removed: `abc`, `abc0` and `abc00`
      are the same password on the wire. */
  lemma PadEqualIffSameTrimmed(a: seq<byte>, b: seq<byte>, maxLen: nat)
    requires |a| <= maxLen && |b| <= maxLen
    ensures Pad(a, maxLen) == Pad(b, maxLen) <==> TrimFiller(a) == TrimFiller(b)
  {
    PadTrimmed(a, maxLen);
    PadTrimmed(b, maxLen);
  }

  /** Appending `0` to a secret shorter than `maxLen` does not change what
      goes on the wire. */
  lemma TrailingFillerIndistinguishable(p: seq<byte>, maxLen: nat)
    requires |p| < maxLen
    ensures Pad(p + [Filler], maxLen) == Pad(p, maxLen)
  {
  }

  datatype Verdict = Accepted | Rejected | ReadFailed | NotifyFailed

  /** The server's side of the handshake: the verdict, the result byte it
      managed to write, and the client bytes it left unread. */
  datatype ServerSide = ServerSide(verdict: Verdict, reply: seq<byte>, rest: seq<byte>)

  /** `verifyPassword`. `input` is what the client sent; `replyDelivered`
      says whether writing the result byte succeeds. The write error of the
      `0` byte is ignored: the verdict is Rejected either way. */
  function VerifyPassword(secret: seq<byte>, maxLen: nat, input: seq<byte>, replyDelivered: bool): (h: ServerSide)
    ensures h.verdict == Accepted <==> Pad(secret, maxLen) <= input && replyDelivered
    ensures h.verdict == Rejected <==> |input| >= |Pad(secret, maxLen)| && !(Pad(secret, maxLen) <= input)
    ensures h.verdict == ReadFailed <==> |input| < |Pad(secret, maxLen)|
    ensures h.verdict != ReadFailed ==> h.rest == input[|Pad(secret, maxLen)|..]
    ensures h.reply == [1] <==> h.verdict == Accepted
    ensures h.reply == [0] ==> h.verdict == Rejected
    ensures h.verdict == Rejected ==> h.reply == (if replyDelivered then [0] else [])
    ensures h.verdict == ReadFailed || h.verdict == NotifyFailed ==> h.reply == []
    ensures |h.reply| <= 1
  {
    var expected := Pad(secret, maxLen);
    if |input| < |expected| then ServerSide(ReadFailed, [], [])
    else
      var guess, rest := input[..|expected|], input[|expected|..];
      assert input == guess + rest;
      if guess != expected then ServerSide(Rejected, if replyDelivered then [0] else [], rest)
      else if replyDelivered then ServerSide(Accepted, [1], rest)
      else ServerSide(NotifyFailed, [], rest)
  }

  datatype AuthError = NoResponse | WrongPassword

  /** The client's side: the block it sends, and either the server bytes left
      after the result byte or the reason it gave up. */
  datatype ClientSide = ClientSide(sent: seq<byte>, outcome: Result<seq<byte>, AuthError>)

  /** `authenticate`: send the padded password, read one byte; `0` means the
      password was refused, any other byte lets the transfer begin. */
  function Authenticate(password: seq<byte>, maxLen: nat, reply: seq<byte>): (c: ClientSide)
    ensures c.sent == Pad(password, maxLen)
    ensures c.outcome.Success? <==> |reply| > 0 && reply[0] != 0
    ensures c.outcome.Success? ==> reply == [reply[0]] + c.outcome.value
  {
    var sent := Pad(password, maxLen);
    if |reply| == 0 then ClientSide(sent, Failure(NoResponse))
    else if reply[0] == 0 then ClientSide(sent, Failure(WrongPassword))
    else
      assert reply == [reply[0]] + reply[1..];
      ClientSide(sent, Success(reply[1..]))
  }

  /** Both sides together, for passwords of any length. The server reads as
      many bytes as the padded secret has, so it accepts exactly when the
      client's block starts with the padded secret; the client then goes on
      with precisely the bytes the server sends after its result byte. A
      refused block makes the client report the wrong password, and a block
      too short for the server gets no reply at all. */
  lemma HandshakeAgreement(password: seq<byte>, secret: seq<byte>, maxLen: nat, later: seq<byte>)
    ensures var block, expected := Pad(password, maxLen), Pad(secret, maxLen);
      var h := VerifyPassword(secret, maxLen, Authenticate(password, maxLen, []).sent, true);
      && (h.verdict == Accepted <==> expected <= block)
      && (h.verdict == Rejected <==> |expected| <= |block| && !(expected <= block))
      && (h.verdict == ReadFailed <==> |block| < |expected|)
      && (h.verdict != ReadFailed ==> h.rest == block[|expected|..])
      && (expected <= block <==> Authenticate(password, maxLen, h.reply + later).outcome == Success(later))
      && (h.verdict == Rejected ==> Authenticate(password, maxLen, h.reply + later).outcome == Failure(WrongPassword))
      && (h.verdict == ReadFailed ==> Authenticate(password, maxLen, h.reply).outcome == Failure(NoResponse))
  {
    assert ([1] + later)[1..] == later;
  }

  /** Within the maximum length the blocks have equal length, so acceptance is
      equality of the padded blocks. */
  lemma AcceptedWithinMaxIffEqual(password: seq<byte>, secret: seq<byte>, maxLen: nat)
    requires |password| <= maxLen && |secret| <= maxLen
    ensures Pad(secret, maxLen) <= Pad(password, maxLen) <==> Pad(password, maxLen) == Pad(secret, maxLen)
  {
  }

  /** A client password longer than the maximum is sent unpadded and in full.
      If it starts with the padded secret it is accepted, although its block
      differs from the secret's. */
  lemma LongerPasswordAccepted(secret: seq<byte>, maxLen: nat, extra: seq<byte>)
    requires |secret| <= maxLen && extra != []
    ensures var password := Pad(secret, maxLen) + extra;
      && Pad(password, maxLen) == password
      && Pad(password, maxLen) != Pad(secret, maxLen)
      && VerifyPassword(secret, maxLen, Pad(password, maxLen), true).verdict == Accepted
  {
    var password := Pad(secret, maxLen) + extra;
    assert |Pad(secret, maxLen)| == maxLen;
    assert password <= Pad(password, maxLen);
  }
}
