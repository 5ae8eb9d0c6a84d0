/**
  The frames of a transfer session as they appear on the wire:

    FileEntry    := LE64(len name) name LE64(len payload) payload
    SymlinkEntry := LE64(-2) LE64(len metadata) metadata
    Terminator   := LE64(-1)

  and a session is its entry frames followed by one terminator.
*/
module Frames {
  import opened LittleEndian

  const TerminatorMark: int := -1
  const SymlinkMark: int := -2

  /** One framed unit. Names are wire names (`/`-separated); symlink metadata
      is the serialized record, treated as opaque bytes. */
  datatype Entry =
    | File(name: seq<byte>, payload: seq<byte>)
    | Symlink(metadata: seq<byte>)

  /** Every length the frame carries fits the int64 length field. */
  predicate WellFormed(e: Entry) {
    match e
    case File(name, payload) => |name| < TwoTo63 && |payload| < TwoTo63
    case Symlink(metadata) => |metadata| < TwoTo63
  }

  predicate AllWellFormed(es: seq<Entry>) {
    forall i :: 0 <= i < |es| ==> WellFormed(es[i])
  }

  function Terminator(): (t: seq<byte>)
    ensures |t| == 8
  {
    EncodeInt64(TerminatorMark)
  }

  function EncodeEntry(e: Entry): (b: seq<byte>)
    requires WellFormed(e)
    ensures e.File? ==> |b| == 16 + |e.name| + |e.payload|
    ensures e.Symlink? ==> |b| == 16 + |e.metadata|
  {
    match e
    case File(name, payload) =>
      EncodeInt64(|name|) + name + EncodeInt64(|payload|) + payload
    case Symlink(metadata) =>
      EncodeInt64(SymlinkMark) + EncodeInt64(|metadata|) + metadata
  }

  /** The frame of an entry, grouped the way the receiver reads it: the
      leading int64, then everything after it. */
  lemma FrameLayout(e: Entry)
    requires WellFormed(e)
    ensures e.File? ==> EncodeEntry(e) == EncodeInt64(|e.name|) + (e.name + (EncodeInt64(|e.payload|) + e.payload))
    ensures e.Symlink? ==> EncodeEntry(e) == EncodeInt64(SymlinkMark) + (EncodeInt64(|e.metadata|) + e.metadata)
  {
    match e
    case File(name, payload) =>
      Assoc4(EncodeInt64(|name|), name, EncodeInt64(|payload|), payload);
    case Symlink(metadata) =>
      Assoc3(EncodeInt64(SymlinkMark), EncodeInt64(|metadata|), metadata);
  }

  lemma Assoc3<T>(a: seq<T>, b: seq<T>, c: seq<T>)
    ensures a + b + c == a + (b + c)
  {
  }

  lemma Assoc4<T>(a: seq<T>, b: seq<T>, c: seq<T>, d: seq<T>)
    ensures a + b + c + d == a + (b + (c + d))
  {
  }

  /** The frames of several entries, back to back, in order. */
  function EncodeEntries(es: seq<Entry>): seq<byte>
    requires AllWellFormed(es)
  {
    if |es| == 0 then [] else EncodeEntry(es[0]) + EncodeEntries(es[1..])
  }

  /** A whole session after the handshake: every entry, then one terminator. */
  function EncodeSession(es: seq<Entry>): seq<byte>
    requires AllWellFormed(es)
  {
    EncodeEntries(es) + Terminator()
  }
}
