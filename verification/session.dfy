/**
  One connection end to end: `handleIncomingConnection` on the server
  (handshake, then the shared object only if the password was accepted) and
  `GetFileFromServer` on the client (handshake, then the receive loop).
*/
module Session {
  import opened LittleEndian
  import opened Wrappers
  import opened Frames
  import opened Paths
  import opened Handshake
  import opened Sender
  import opened Receiver

  /** Everything the server writes on a connection whose client sent `input`:
      after a refused or unread password, at most the result byte and never
      a frame. */
  function ServeConnection(secret: seq<byte>, maxLen: nat, input: seq<byte>, root: Root, sep: byte,
                           replyDelivered: bool): (out: seq<byte>)
    requires ValidRoot(root, sep)
    ensures VerifyPassword(secret, maxLen, input, replyDelivered).verdict != Accepted ==> out == [] || out == [0]
    ensures VerifyPassword(secret, maxLen, input, replyDelivered).verdict == Accepted ==>
      out == [1] + SendObject(root, sep).out
  {
    var h := VerifyPassword(secret, maxLen, input, replyDelivered);
    if h.verdict == Accepted then h.reply + SendObject(root, sep).out else h.reply
  }

  datatype ClientError = AuthFailed(auth: AuthError) | ReceiveFailed(recv: RecvError)

  /** What the client did: the credential block it sent, what the receive
      loop got if it ran, and how the whole call ended. */
  datatype ClientRun = ClientRun(sent: seq<byte>, received: Option<Received>, result: Result<(), ClientError>)

  /** Everything the client does on a connection whose server sent `input`:
      no frame is read unless the handshake succeeded, and success means the
      receive loop read the terminator. */
  function GetFromServer(password: seq<byte>, maxLen: nat, input: seq<byte>): (c: ClientRun)
    ensures c.sent == Pad(password, maxLen)
    ensures c.received.None? <==> c.result.Failure? && c.result.error.AuthFailed?
    ensures c.received.None? <==> |input| == 0 || input[0] == 0
    ensures c.result.Success? <==> c.received.Some? && c.received.value.outcome.Finished?
  {
    var a := Authenticate(password, maxLen, input);
    match a.outcome
    case Failure(e) => ClientRun(a.sent, None, Failure(AuthFailed(e)))
    case Success(rest) =>
      var r := Receive(rest);
      ClientRun(a.sent, Some(r), if r.outcome.Finished? then Success(()) else Failure(ReceiveFailed(r.outcome.error)))
  }

  /** An accepted password and a readable object: the client receives
      exactly the entries the object is meant to produce, in order, ends with
      success, and no byte is left over on its side. The password is
      accepted when its block starts with the padded secret; within the
      maximum length that means the blocks are equal. */
  lemma TransferSucceeds(password: seq<byte>, secret: seq<byte>, maxLen: nat, root: Root, sep: byte)
    requires Pad(secret, maxLen) <= Pad(password, maxLen)
    requires ValidRoot(root, sep) && Readable(root)
    ensures var out := ServeConnection(secret, maxLen, Pad(password, maxLen), root, sep, true);
      GetFromServer(password, maxLen, out)
        == ClientRun(Pad(password, maxLen), Some(Received(RootEntries(root, sep), None, Finished([]))), Success(()))
  {
    HandshakeAgreement(password, secret, maxLen, SendObject(root, sep).out);
    var es := RootEntries(root, sep);
    ReceiveSession(es, []);
    assert EncodeSession(es) + [] == EncodeSession(es);
  }

  /** A refused password: the server sends at most the `0` byte and never a
      frame, and the client reports the authentication failure without
      reading a frame. A block at least as long as the padded secret gets
      the `0` byte and is reported as the wrong password. A shorter one needs
      a secret longer than the maximum; the program then blocks on both
      sides, which the model shows as a server read that fails and a client
      that gets no reply. */
  lemma TransferRejected(password: seq<byte>, secret: seq<byte>, maxLen: nat, root: Root, sep: byte)
    requires !(Pad(secret, maxLen) <= Pad(password, maxLen))
    requires ValidRoot(root, sep)
    ensures var out := ServeConnection(secret, maxLen, Pad(password, maxLen), root, sep, true);
      var c := GetFromServer(password, maxLen, out);
      && (|Pad(secret, maxLen)| <= |Pad(password, maxLen)| ==>
            out == [0] && c == ClientRun(Pad(password, maxLen), None, Failure(AuthFailed(WrongPassword))))
      && (|Pad(password, maxLen)| < |Pad(secret, maxLen)| ==>
            out == [] && c == ClientRun(Pad(password, maxLen), None, Failure(AuthFailed(NoResponse))))
  {
    HandshakeAgreement(password, secret, maxLen, []);
  }

  /** An accepted password but an object the sender cannot read in full: the
      sender stops without a terminator and closes, and the client's receive
      loop fails instead of reporting success. */
  lemma TransferInterrupted(password: seq<byte>, secret: seq<byte>, maxLen: nat, root: Root, sep: byte)
    requires Pad(secret, maxLen) <= Pad(password, maxLen)
    requires ValidRoot(root, sep) && !Readable(root)
    ensures var out := ServeConnection(secret, maxLen, Pad(password, maxLen), root, sep, true);
      && GetFromServer(password, maxLen, out).received.Some?
      && GetFromServer(password, maxLen, out).result.Failure?
      && GetFromServer(password, maxLen, out).result.error.ReceiveFailed?
  {
    var sent := SendObject(root, sep).out;
    var es := RootEntries(root, sep);
    assert Receive(sent).outcome.Aborted? by {
      assert sent == EncodeSession(es)[..|sent|];
      CutSessionAborts(es, |sent|);
    }
    HandshakeAgreement(password, secret, maxLen, sent);
  }

  /** What a readable single file leaves on the receiver: one file, at the
      local path of its base name, holding the `size` bytes the sender read. */
  lemma SingleFileArrives(path: seq<byte>, size: nat, data: seq<byte>, sep: byte, outDir: seq<byte>)
    requires ValidRoot(SingleFile(path, Opened(size, data)), sep) && |data| >= size
    ensures Effects(Receive(EncodeSession(RootEntries(SingleFile(path, Opened(size, data)), sep))), outDir, sep)
         == [WroteFile(LocalPath(outDir, ToSlash(Base(path, sep), sep), sep), data[..size])]
  {
    EffectsOfSession(RootEntries(SingleFile(path, Opened(size, data)), sep), outDir, sep);
  }

  /** What a readable directory leaves on the receiver: one file per
      non-directory object, in walk order, each at the local path of the name
      the sender computed and holding the `size` bytes the sender read. */
  lemma DirectoryArrives(path: seq<byte>, walk: seq<Node>, sep: byte, outDir: seq<byte>)
    requires ValidRoot(Directory(path, walk), sep) && Readable(Directory(path, walk))
    ensures var fx := Effects(Receive(EncodeSession(RootEntries(Directory(path, walk), sep))), outDir, sep);
      var files := FileNodes(walk);
      && |fx| == |files|
      && forall i :: 0 <= i < |files| ==>
           fx[i] == WroteFile(LocalPath(outDir, ToSlash(DestNameAsWritten(path, files[i].path, sep), sep), sep),
                              files[i].state.data[..files[i].state.size])
  {
    var es := WalkEntries(path, walk, sep);
    EffectsOfSession(es, outDir, sep);
    WalkEntriesAreFiles(path, walk, sep);
    var files := FileNodes(walk);
    forall i | 0 <= i < |files|
      ensures Complete(files[i].state)
    {
      assert files[i] in walk;
    }
  }

  /** The path the client writes a file to is the sender's destination name
      under the output directory, whenever the name holds no `/` other than
      host separators. */
  lemma ReceivedPath(outDir: seq<byte>, dest: seq<byte>, sep: byte)
    requires sep == Slash || Slash !in dest
    ensures LocalPath(outDir, ToSlash(dest, sep), sep) == if outDir == [] then dest else outDir + [sep] + dest
  {
    FromSlashToSlash(dest, sep);
  }
}
