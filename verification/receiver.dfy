/**
  The receive loop of client.go (`GetFileFromServer` after the handshake, and
  `GetSymlinkFromServer`): read an int64, stop on -1, read a symlink frame on
  -2, otherwise read a file frame whose name has that many bytes; repeat.
  The connection is the byte sequence the peer sends before closing it.
*/
module Receiver {
  import opened LittleEndian
  import opened Wrappers
  import opened Frames
  import opened Paths

  /** The field being read when a frame broke. */
  datatype Field = SizeField | NameField | FileSizeField | PayloadField | MetadataSizeField | MetadataField

  datatype RecvError =
      /** The peer closed before the field was complete. */
    | ShortRead(field: Field)
      /** A negative length: `make` panics for a name or metadata length,
          `Truncate` fails for a file size. */
    | NegativeLength(field: Field, length: int)

  /** A file that was created and truncated to its announced size but never
      completely received; it stays on disk. */
  datatype PartialFile = PartialFile(name: seq<byte>, onDisk: seq<byte>)

  /** The result of reading one frame. */
  datatype Frame =
    | Terminated(rest: seq<byte>)
    | Framed(entry: Entry, rest: seq<byte>)
    | Broken(partial: Option<PartialFile>, error: RecvError)

  function Zeros(n: nat): (z: seq<byte>)
    ensures |z| == n
    ensures forall i :: 0 <= i < n ==> z[i] == 0
  {
    seq(n, i => 0)
  }

  /** One iteration of the receive loop. */
  function DecodeFrame(input: seq<byte>): (f: Frame)
    ensures f.Terminated? <==> |input| >= 8 && DecodeInt64(input[..8]) == TerminatorMark
    ensures f.Terminated? ==> f.rest == input[8..]
    ensures f.Framed? ==> WellFormed(f.entry) && |f.rest| < |input|
    ensures f.Framed? ==> input == EncodeEntry(f.entry) + f.rest
    ensures f.Broken? && f.partial.Some? ==> f.error.field == FileSizeField || f.error == ShortRead(PayloadField)
  {
    if |input| < 8 then Broken(None, ShortRead(SizeField))
    else
      var size := DecodeInt64(input[..8]);
      var t := input[8..];
      if size == TerminatorMark then Terminated(t)
      else if size == SymlinkMark then
        var f := DecodeSymlink(t);
        if f.Framed? then SymlinkFrameExact(input, f.entry.metadata, f.rest); f else f
      else if size < 0 then Broken(None, NegativeLength(SizeField, size))
      else if |t| < size then Broken(None, ShortRead(NameField))
      else
        var f := DecodeFile(t[..size], t[size..]);
        assert t == t[..size] + t[size..];
        if f.Framed? then FileFrameExact(input, t[..size], f.entry.payload, f.rest); f else f
  }

  /** `GetSymlinkFromServer`: a length, then exactly that many metadata bytes. */
  function DecodeSymlink(t: seq<byte>): (f: Frame)
    ensures f.Framed? ==> f.entry.Symlink? && WellFormed(f.entry) && |f.rest| + 8 <= |t|
    ensures f.Framed? ==> t == EncodeInt64(|f.entry.metadata|) + (f.entry.metadata + f.rest)
    ensures !f.Terminated? && (f.Broken? ==> f.partial.None?)
  {
    if |t| < 8 then Broken(None, ShortRead(MetadataSizeField))
    else
      var m := DecodeInt64(t[..8]);
      var u := t[8..];
      if m < 0 then Broken(None, NegativeLength(MetadataSizeField, m))
      else if |u| < m then Broken(None, ShortRead(MetadataField))
      else
        EncodeDecodeInt64(t[..8]);
        assert t == t[..8] + (u[..m] + u[m..]);
        Framed(Symlink(u[..m]), u[m..])
  }

  /** The rest of a file frame once its name is read: the file size, then the
      file is created and truncated to that size, then exactly that many
      payload bytes are copied into it. */
  function DecodeFile(name: seq<byte>, v: seq<byte>): (f: Frame)
    requires |name| < TwoTo63
    ensures f.Framed? ==> f.entry.File? && f.entry.name == name && WellFormed(f.entry)
    ensures f.Framed? ==> v == EncodeInt64(|f.entry.payload|) + (f.entry.payload + f.rest)
    ensures f.Broken? && f.partial.Some? ==> f.partial.value.name == name
    ensures !f.Terminated?
  {
    if |v| < 8 then Broken(None, ShortRead(FileSizeField))
    else
      var fileSize := DecodeInt64(v[..8]);
      var w := v[8..];
      if fileSize < 0 then Broken(Some(PartialFile(name, [])), NegativeLength(FileSizeField, fileSize))
      else if |w| < fileSize then
        Broken(Some(PartialFile(name, w + Zeros(fileSize - |w|))), ShortRead(PayloadField))
      else
        EncodeDecodeInt64(v[..8]);
        assert v == v[..8] + (w[..fileSize] + w[fileSize..]);
        Framed(File(name, w[..fileSize]), w[fileSize..])
  }

  /** What a broken file frame leaves on disk. The file exists exactly when
      the size field was read and is negative or longer than what followed.
      A negative size makes the truncation fail on an empty file; otherwise
      the file has the announced size: the bytes that arrived, then zeros. */
  lemma PartialFileOnDisk(name: seq<byte>, v: seq<byte>)
    requires |name| < TwoTo63
    ensures var f := DecodeFile(name, v);
      && (f.Broken? && f.partial.Some? <==> |v| >= 8 && (DecodeInt64(v[..8]) < 0 || |v| - 8 < DecodeInt64(v[..8])))
      && (f.Broken? && f.partial.Some? && DecodeInt64(v[..8]) < 0 ==> f.partial.value.onDisk == [])
      && (f.Broken? && f.partial.Some? && DecodeInt64(v[..8]) >= 0 ==>
            var onDisk := f.partial.value.onDisk;
            && |onDisk| == DecodeInt64(v[..8])
            && v[8..] <= onDisk
            && forall i :: |v| - 8 <= i < |onDisk| ==> onDisk[i] == 0)
  {
  }

  /** Reassembles a symlink frame from its marker and its body. */
  lemma SymlinkFrameExact(input: seq<byte>, metadata: seq<byte>, rest: seq<byte>)
    requires |input| >= 8 && DecodeInt64(input[..8]) == SymlinkMark && |metadata| < TwoTo63
    requires input[8..] == EncodeInt64(|metadata|) + (metadata + rest)
    ensures input == EncodeEntry(Symlink(metadata)) + rest
  {
    EncodeDecodeInt64(input[..8]);
    var a, b := EncodeInt64(SymlinkMark), EncodeInt64(|metadata|);
    assert input == input[..8] + input[8..];
    FrameLayout(Symlink(metadata));
    Assoc3(b, metadata, rest);
    Assoc3(a, b + metadata, rest);
  }

  /** Reassembles a file frame from its name length, its name and its body. */
  lemma FileFrameExact(input: seq<byte>, name: seq<byte>, payload: seq<byte>, rest: seq<byte>)
    requires |input| >= 8 && DecodeInt64(input[..8]) == |name| && |payload| < TwoTo63
    requires input[8..] == name + (EncodeInt64(|payload|) + (payload + rest))
    ensures input == EncodeEntry(File(name, payload)) + rest
  {
    EncodeDecodeInt64(input[..8]);
    var a, c := EncodeInt64(|name|), EncodeInt64(|payload|);
    assert input == input[..8] + input[8..];
    FrameLayout(File(name, payload));
    Assoc3(c, payload, rest);
    Assoc3(name, c + payload, rest);
    Assoc3(a, name + (c + payload), rest);
  }

  /** An int64 field followed by anything is read back as that integer. */
  lemma SplitField(n: int, tail: seq<byte>)
    requires IsInt64(n)
    ensures |EncodeInt64(n) + tail| >= 8
    ensures DecodeInt64((EncodeInt64(n) + tail)[..8]) == n
    ensures (EncodeInt64(n) + tail)[8..] == tail
  {
    assert (EncodeInt64(n) + tail)[..8] == EncodeInt64(n);
    DecodeEncodeInt64(n);
  }

  /** Reading a frame back yields the entry that was framed and leaves the
      following bytes untouched. */
  lemma DecodeEncodeEntry(e: Entry, rest: seq<byte>)
    requires WellFormed(e)
    ensures DecodeFrame(EncodeEntry(e) + rest) == Framed(e, rest)
  {
    if e.File? {
      DecodeEncodeFile(e.name, e.payload, rest);
    } else {
      DecodeEncodeSymlink(e.metadata, rest);
    }
  }

  lemma DecodeEncodeFile(name: seq<byte>, payload: seq<byte>, rest: seq<byte>)
    requires WellFormed(File(name, payload))
    ensures DecodeFrame(EncodeEntry(File(name, payload)) + rest) == Framed(File(name, payload), rest)
  {
    FrameLayout(File(name, payload));
    var c := EncodeInt64(|payload|);
    var v := c + (payload + rest);
    Assoc3(c, payload, rest);
    Assoc3(name, c + payload, rest);
    Assoc3(EncodeInt64(|name|), name + (c + payload), rest);
    SplitField(|name|, name + v);
    assert (name + v)[..|name|] == name && (name + v)[|name|..] == v;
    SplitField(|payload|, payload + rest);
    assert (payload + rest)[..|payload|] == payload && (payload + rest)[|payload|..] == rest;
  }

  lemma DecodeEncodeSymlink(metadata: seq<byte>, rest: seq<byte>)
    requires WellFormed(Symlink(metadata))
    ensures DecodeFrame(EncodeEntry(Symlink(metadata)) + rest) == Framed(Symlink(metadata), rest)
  {
    FrameLayout(Symlink(metadata));
    var b := EncodeInt64(|metadata|);
    var t := b + (metadata + rest);
    Assoc3(b, metadata, rest);
    Assoc3(EncodeInt64(SymlinkMark), b + metadata, rest);
    SplitField(SymlinkMark, t);
    SplitField(|metadata|, metadata + rest);
    assert (metadata + rest)[..|metadata|] == metadata && (metadata + rest)[|metadata|..] == rest;
  }

  /** What the loop did with a connection: the entries it completed, in order,
      a file left incomplete if a frame broke inside it, and how it ended. */
  datatype Received = Received(entries: seq<Entry>, partial: Option<PartialFile>, outcome: Outcome)

  datatype Outcome = Finished(rest: seq<byte>) | Aborted(error: RecvError)

  /** The whole receive loop. Success means the terminator was read; the bytes
      after it are left unread. */
  function Receive(input: seq<byte>): (r: Received)
    ensures AllWellFormed(r.entries)
    ensures r.partial.Some? ==> r.outcome.Aborted?
    ensures r.outcome.Finished? ==> input == EncodeSession(r.entries) + r.outcome.rest
    decreases |input|
  {
    match DecodeFrame(input)
    case Terminated(rest) =>
      TerminatedExact(input);
      Received([], None, Finished(rest))
    case Broken(partial, error) => Received([], partial, Aborted(error))
    case Framed(e, rest) =>
      var r := Receive(rest);
      ConsExact(input, e, rest, r);
      Received([e] + r.entries, r.partial, r.outcome)
  }

  lemma TerminatedExact(input: seq<byte>)
    requires DecodeFrame(input).Terminated?
    ensures input == EncodeSession([]) + DecodeFrame(input).rest
  {
    EncodeDecodeInt64(input[..8]);
    assert input == input[..8] + input[8..];
    assert EncodeSession([]) == Terminator();
  }

  /** One more frame in front of a finished session is a longer finished session. */
  lemma ConsExact(input: seq<byte>, e: Entry, rest: seq<byte>, r: Received)
    requires WellFormed(e) && AllWellFormed(r.entries)
    requires input == EncodeEntry(e) + rest
    requires r.outcome.Finished? ==> rest == EncodeSession(r.entries) + r.outcome.rest
    ensures AllWellFormed([e] + r.entries)
    ensures r.outcome.Finished? ==> input == EncodeSession([e] + r.entries) + r.outcome.rest
  {
    EncodeSessionCons(e, r.entries);
    if r.outcome.Finished? {
      Assoc3(EncodeEntry(e), EncodeSession(r.entries), r.outcome.rest);
    }
  }

  lemma EncodeSessionCons(e: Entry, es: seq<Entry>)
    requires WellFormed(e) && AllWellFormed(es)
    ensures AllWellFormed([e] + es)
    ensures EncodeSession([e] + es) == EncodeEntry(e) + EncodeSession(es)
  {
    assert ([e] + es)[0] == e;
    assert ([e] + es)[1..] == es;
    Assoc3(EncodeEntry(e), EncodeEntries(es), Terminator());
  }

  lemma EncodeSessionFirst(es: seq<Entry>)
    requires |es| > 0 && AllWellFormed(es)
    ensures AllWellFormed(es[1..])
    ensures EncodeSession(es) == EncodeEntry(es[0]) + EncodeSession(es[1..])
    ensures |EncodeSession(es)| == |EncodeEntry(es[0])| + |EncodeSession(es[1..])|
  {
    Assoc3(EncodeEntry(es[0]), EncodeEntries(es[1..]), Terminator());
  }

  /** Round trip: the receiver reads back exactly the entries of a session, in
      order, stops at its single terminator and leaves whatever follows it. */
  lemma {:induction false} ReceiveSession(es: seq<Entry>, trailing: seq<byte>)
    requires AllWellFormed(es)
    ensures Receive(EncodeSession(es) + trailing) == Received(es, None, Finished(trailing))
  {
    if |es| == 0 {
      assert EncodeSession(es) == Terminator();
      SplitField(TerminatorMark, trailing);
    } else {
      var rest := EncodeSession(es[1..]) + trailing;
      EncodeSessionCons(es[0], es[1..]);
      assert [es[0]] + es[1..] == es;
      Assoc3(EncodeEntry(es[0]), EncodeSession(es[1..]), trailing);
      ReceiveAfterFrame(es[0], rest);
      ReceiveSession(es[1..], trailing);
    }
  }

  /** After a complete frame the loop carries on with the bytes that follow. */
  lemma ReceiveAfterFrame(e: Entry, rest: seq<byte>)
    requires WellFormed(e)
    ensures Receive(EncodeEntry(e) + rest).outcome == Receive(rest).outcome
    ensures Receive(EncodeEntry(e) + rest).partial == Receive(rest).partial
    ensures Receive(EncodeEntry(e) + rest).entries == [e] + Receive(rest).entries
  {
    DecodeEncodeEntry(e, rest);
  }

  /** A frame cut anywhere before its end never decodes. */
  lemma CutFrameBreaks(e: Entry, k: nat)
    requires WellFormed(e) && k < |EncodeEntry(e)|
    ensures DecodeFrame(EncodeEntry(e)[..k]).Broken?
  {
    if k >= 8 {
      FrameLayout(e);
      match e
      case File(name, payload) => CutFileFrameBreaks(name, payload, k);
      case Symlink(metadata) => CutSymlinkFrameBreaks(metadata, k);
    }
  }

  lemma CutFileFrameBreaks(name: seq<byte>, payload: seq<byte>, k: nat)
    requires |name| < TwoTo63 && |payload| < TwoTo63
    requires 8 <= k < 16 + |name| + |payload|
    ensures DecodeFrame((EncodeInt64(|name|) + (name + (EncodeInt64(|payload|) + payload)))[..k]).Broken?
  {
    var body := EncodeInt64(|payload|) + payload;
    var tail := name + body;
    var t := tail[..k - 8];
    var x := EncodeInt64(|name|) + t;
    assert (EncodeInt64(|name|) + tail)[..k] == x by {
      PrefixOfConcat(EncodeInt64(|name|), tail, k);
    }
    SplitField(|name|, t);
    if |t| >= |name| {
      var j := k - 8 - |name|;
      assert t == name + body[..j] by {
        PrefixOfConcat(name, body, k - 8);
      }
      DecodeFrameOfFile(x);
      assert t[..|name|] == name && t[|name|..] == body[..j];
      CutFileBodyBreaks(name, payload, j);
    }
  }

  /** A frame with a non-negative name length is read by the file reader. */
  lemma DecodeFrameOfFile(input: seq<byte>)
    requires |input| >= 8 && 0 <= DecodeInt64(input[..8]) <= |input| - 8
    ensures var size := DecodeInt64(input[..8]);
      DecodeFrame(input) == DecodeFile(input[8..][..size], input[8..][size..])
  {
  }

  lemma CutSymlinkFrameBreaks(metadata: seq<byte>, k: nat)
    requires |metadata| < TwoTo63
    requires 8 <= k < 16 + |metadata|
    ensures DecodeFrame((EncodeInt64(SymlinkMark) + (EncodeInt64(|metadata|) + metadata))[..k]).Broken?
  {
    var body := EncodeInt64(|metadata|) + metadata;
    assert (EncodeInt64(SymlinkMark) + body)[..k] == EncodeInt64(SymlinkMark) + body[..k - 8];
    SplitField(SymlinkMark, body[..k - 8]);
    CutSymlinkBodyBreaks(metadata, k - 8);
  }

  lemma CutFileBodyBreaks(name: seq<byte>, payload: seq<byte>, j: nat)
    requires |name| < TwoTo63 && |payload| < TwoTo63 && j < 8 + |payload|
    ensures DecodeFile(name, (EncodeInt64(|payload|) + payload)[..j]).Broken?
  {
    if j >= 8 {
      assert (EncodeInt64(|payload|) + payload)[..j] == EncodeInt64(|payload|) + payload[..j - 8];
      SplitField(|payload|, payload[..j - 8]);
    }
  }

  lemma CutSymlinkBodyBreaks(metadata: seq<byte>, j: nat)
    requires |metadata| < TwoTo63 && j < 8 + |metadata|
    ensures DecodeSymlink((EncodeInt64(|metadata|) + metadata)[..j]).Broken?
  {
    if j >= 8 {
      assert (EncodeInt64(|metadata|) + metadata)[..j] == EncodeInt64(|metadata|) + metadata[..j - 8];
      SplitField(|metadata|, metadata[..j - 8]);
    }
  }

  lemma ReceiveBrokenFrame(input: seq<byte>)
    requires DecodeFrame(input).Broken?
    ensures Receive(input).outcome.Aborted?
  {
  }

  /** A cut inside the terminator is a short read of the name length. */
  lemma CutTerminatorAborts(es: seq<Entry>, k: nat)
    requires |es| == 0 && k < 8
    ensures AllWellFormed(es) && |EncodeSession(es)| == 8
    ensures Receive(EncodeSession(es)[..k]).outcome.Aborted?
  {
    assert EncodeSession(es) == Terminator();
    assert DecodeFrame(Terminator()[..k]).Broken?;
  }

  /** A cut inside the first frame of a session breaks that frame. */
  lemma CutFirstFrameAborts(e: Entry, tail: seq<byte>, k: nat)
    requires WellFormed(e) && k < |EncodeEntry(e)|
    ensures Receive((EncodeEntry(e) + tail)[..k]).outcome.Aborted?
  {
    assert (EncodeEntry(e) + tail)[..k] == EncodeEntry(e)[..k];
    CutFrameBreaks(e, k);
    ReceiveBrokenFrame(EncodeEntry(e)[..k]);
  }

  /** A cut past the first frame aborts if the cut of the rest does. */
  lemma CutLaterFrameAborts(e: Entry, tail: seq<byte>, k: nat)
    requires WellFormed(e) && |EncodeEntry(e)| <= k <= |EncodeEntry(e)| + |tail|
    requires Receive(tail[..k - |EncodeEntry(e)|]).outcome.Aborted?
    ensures Receive((EncodeEntry(e) + tail)[..k]).outcome.Aborted?
  {
    var y := tail[..k - |EncodeEntry(e)|];
    assert (EncodeEntry(e) + tail)[..k] == EncodeEntry(e) + y by {
      PrefixOfConcat(EncodeEntry(e), tail, k);
    }
    ReceiveAfterFrame(e, y);
  }

  lemma PrefixOfConcat<T>(a: seq<T>, b: seq<T>, k: nat)
    requires |a| <= k <= |a| + |b|
    ensures (a + b)[..k] == a + b[..k - |a|]
  {
  }

  /** A session cut anywhere before the end of its terminator, as when the
      sender stops on an error and closes the connection, makes the receive
      fail: the receiver never reports success for an incomplete session. */
  lemma {:induction false} CutSessionAborts(es: seq<Entry>, k: nat)
    requires AllWellFormed(es) && k < |EncodeSession(es)|
    ensures Receive(EncodeSession(es)[..k]).outcome.Aborted?
  {
    if |es| == 0 {
      CutTerminatorAborts(es, k);
    } else {
      var first := EncodeEntry(es[0]);
      var rest := EncodeSession(es[1..]);
      assert EncodeSession(es) == first + rest && AllWellFormed(es[1..]) by {
        EncodeSessionFirst(es);
      }
      if k < |first| {
        CutFirstFrameAborts(es[0], rest, k);
      } else {
        CutSessionAborts(es[1..], k - |first|);
        CutLaterFrameAborts(es[0], rest, k);
      }
    }
  }

  /** A file frame whose payload stops short leaves the file at its announced
      size: the bytes that arrived, then the zeros the truncation put there. */
  lemma ShortPayloadLeavesTruncatedFile(name: seq<byte>, size: nat, arrived: seq<byte>)
    requires |name| < TwoTo63 && size < TwoTo63 && |arrived| < size
    ensures DecodeFrame(EncodeInt64(|name|) + (name + (EncodeInt64(size) + arrived)))
         == Broken(Some(PartialFile(name, arrived + Zeros(size - |arrived|))), ShortRead(PayloadField))
  {
    var v := EncodeInt64(size) + arrived;
    SplitField(|name|, name + v);
    assert (name + v)[..|name|] == name && (name + v)[|name|..] == v;
    DecodeFrameOfFile(EncodeInt64(|name|) + (name + v));
    SplitField(size, arrived);
  }

  /** What the loop leaves on disk, in order. Symlink metadata is kept opaque. */
  datatype Effect = WroteFile(path: seq<byte>, content: seq<byte>) | MadeSymlink(metadata: seq<byte>)

  function Materialize(e: Entry, outDir: seq<byte>, sep: byte): Effect {
    match e
    case File(name, payload) => WroteFile(LocalPath(outDir, name, sep), payload)
    case Symlink(metadata) => MadeSymlink(metadata)
  }

  /** The completed entries, then the incomplete file if there is one. */
  function Effects(r: Received, outDir: seq<byte>, sep: byte): (fx: seq<Effect>)
    ensures |fx| == |r.entries| + (if r.partial.Some? then 1 else 0)
    ensures forall i :: 0 <= i < |r.entries| ==> fx[i] == Materialize(r.entries[i], outDir, sep)
    ensures r.partial.Some? ==>
      fx[|fx| - 1] == WroteFile(LocalPath(outDir, r.partial.value.name, sep), r.partial.value.onDisk)
  {
    var done := seq(|r.entries|, i requires 0 <= i < |r.entries| => Materialize(r.entries[i], outDir, sep));
    match r.partial
    case None => done
    case Some(p) => done + [WroteFile(LocalPath(outDir, p.name, sep), p.onDisk)]
  }

  /** A whole session leaves exactly its files on disk, in order, each at the
      local path of its wire name with the payload the frame carried, and no
      half-written file. */
  lemma EffectsOfSession(es: seq<Entry>, outDir: seq<byte>, sep: byte)
    requires AllWellFormed(es)
    ensures var fx := Effects(Receive(EncodeSession(es)), outDir, sep);
      && |fx| == |es|
      && forall i :: 0 <= i < |es| ==> fx[i] == Materialize(es[i], outDir, sep)
  {
    ReceiveSession(es, []);
    assert EncodeSession(es) + [] == EncodeSession(es);
  }
}
