/**
  The sending side of server.go (`sendObjectToClient`, `sendFileToClient`):
  one file frame per non-directory object of the shared tree, in walk order,
  then one terminator. The file system is abstracted: a shared object is
  either missing, a single file, or a directory given by the sequence of
  objects `filepath.Walk` visits (the directory itself included).
*/
module Sender {
  import opened LittleEndian
  import opened Wrappers
  import opened Frames
  import opened Paths

  /** What `sendFileToClient` finds when it opens a path. */
  datatype FileState =
      /** `os.Open` fails: nothing of the frame is sent. */
    | Unopenable
      /** `Stat` fails after the name was sent. */
    | Unstattable
      /** The size `Stat` reports, and the bytes a read of the file yields
          (fewer when the file shrank in between, more when it grew). */
    | Opened(size: nat, data: seq<byte>)

  /** An object visited by the walk. Symbolic links are not directories to
      the walk, so they are `FileNode`s whose state is that of their target. */
  datatype Node = DirNode(path: seq<byte>) | FileNode(path: seq<byte>, state: FileState)

  datatype Root =
    | Missing(path: seq<byte>)
    | SingleFile(path: seq<byte>, state: FileState)
    | Directory(path: seq<byte>, walk: seq<Node>)

  datatype SendError = OpenFailed(path: seq<byte>) | StatFailed(path: seq<byte>) | CopyFailed(path: seq<byte>)

  /** The bytes written to the connection, and the error that stopped the
      sender if one did. */
  datatype Sent = Sent(out: seq<byte>, error: Option<SendError>)

  predicate ValidState(st: FileState) {
    st.Opened? ==> st.size < TwoTo63
  }

  /** The payload the frame announces: `size` bytes of the file. Where the
      file yields fewer, the frame is cut inside this payload. */
  function Intended(st: FileState): (p: seq<byte>)
    ensures st.Opened? ==> |p| == st.size
  {
    match st
    case Opened(size, data) =>
      if |data| >= size then data[..size] else data + seq(size - |data|, i => 0)
    case _ => []
  }

  /** The file can be sent in full. */
  predicate Complete(st: FileState) {
    st.Opened? && |st.data| >= st.size
  }

  /** The file entry a non-directory object is meant to become. */
  function FileEntry(dest: seq<byte>, st: FileState, sep: byte): Entry {
    File(ToSlash(dest, sep), Intended(st))
  }

  /** `sendFileToClient`: name length, `/`-separated name, size, then exactly
      `size` bytes copied from the file. On any failure the bytes already
      written stay written: they form a proper prefix of the intended frame. */
  function SendFile(src: seq<byte>, dest: seq<byte>, st: FileState, sep: byte): (s: Sent)
    requires |dest| < TwoTo63 && ValidState(st)
    ensures WellFormed(FileEntry(dest, st, sep))
    ensures s.error.None? <==> Complete(st)
    ensures s.error.None? ==> s.out == EncodeEntry(FileEntry(dest, st, sep))
    ensures s.error.Some? ==> s.out < EncodeEntry(FileEntry(dest, st, sep))
  {
    var name := ToSlash(dest, sep);
    FrameLayout(FileEntry(dest, st, sep));
    match st
    case Unopenable => Sent([], Some(OpenFailed(src)))
    case Unstattable =>
      var out := EncodeInt64(|name|) + name;
      assert EncodeEntry(FileEntry(dest, st, sep)) == out + EncodeInt64(0);
      Sent(out, Some(StatFailed(src)))
    case Opened(size, data) =>
      var header := EncodeInt64(|name|) + name + EncodeInt64(size);
      Assoc4(EncodeInt64(|name|), name, EncodeInt64(size), Intended(st));
      if |data| >= size then
        Sent(header + data[..size], None)
      else
        assert EncodeEntry(FileEntry(dest, st, sep)) == header + data + seq(size - |data|, i => 0);
        Sent(header + data, Some(CopyFailed(src)))
  }

  /** The non-directory objects of a walk, in walk order. */
  function FileNodes(nodes: seq<Node>): (files: seq<Node>)
    ensures forall i :: 0 <= i < |files| ==> files[i].FileNode? && files[i] in nodes
    ensures forall n :: n in nodes && n.FileNode? ==> n in files
    ensures |nodes| == 1 ==> files == (if nodes[0].FileNode? then nodes else [])
  {
    if nodes == [] then []
    else
      var rest := FileNodes(nodes[1..]);
      assert forall n :: n in nodes[1..] ==> n in nodes;
      assert forall n :: n in nodes ==> n == nodes[0] || n in nodes[1..];
      if nodes[0].FileNode? then [nodes[0]] + rest else rest
  }

  /** Filtering keeps walk order: the files of two consecutive stretches of a
      walk are the files of the first, then those of the second. With the
      one-object case this fixes the result completely. */
  lemma {:induction false} FileNodesAppend(a: seq<Node>, b: seq<Node>)
    ensures FileNodes(a + b) == FileNodes(a) + FileNodes(b)
  {
    if a == [] {
      assert a + b == b && FileNodes(a) == [];
    } else {
      FileNodesAppend(a[1..], b);
      FileNodesAppendStep(a, b);
    }
  }

  lemma FileNodesAppendStep(a: seq<Node>, b: seq<Node>)
    requires a != [] && FileNodes(a[1..] + b) == FileNodes(a[1..]) + FileNodes(b)
    ensures FileNodes(a + b) == FileNodes(a) + FileNodes(b)
  {
    var head := if a[0].FileNode? then [a[0]] else [];
    TailOfConcat(a, b);
    FileNodesHead(a + b);
    FileNodesHead(a);
    ConcatRegroup(head, FileNodes(a[1..]), FileNodes(b), FileNodes(a + b), FileNodes(a));
  }

  lemma FileNodesHead(s: seq<Node>)
    requires s != []
    ensures FileNodes(s) == (if s[0].FileNode? then [s[0]] else []) + FileNodes(s[1..])
  {
  }

  lemma TailOfConcat<T>(a: seq<T>, b: seq<T>)
    requires a != []
    ensures (a + b)[0] == a[0] && (a + b)[1..] == a[1..] + b
  {
  }

  lemma ConcatRegroup<T>(h: seq<T>, x: seq<T>, y: seq<T>, whole: seq<T>, front: seq<T>)
    requires whole == h + (x + y) && front == h + x
    ensures whole == front + y
  {
  }

  /** Every object of the walk can be named on the wire and has a size that
      fits the int64 field. */
  predicate ValidWalk(root: seq<byte>, nodes: seq<Node>, sep: byte) {
    forall i :: 0 <= i < |nodes| && nodes[i].FileNode? ==>
      |DestNameAsWritten(root, nodes[i].path, sep)| < TwoTo63 && ValidState(nodes[i].state)
  }

  /** The entries a walk is meant to produce: one per non-directory object, in
      walk order, named by its destination name as server.go computes it
      (`DestNameAsWritten`, which drops a leading `.` when the shared
      directory's parent is `.`). */
  function WalkEntries(root: seq<byte>, nodes: seq<Node>, sep: byte): (es: seq<Entry>)
    requires ValidWalk(root, nodes, sep)
    ensures AllWellFormed(es)
    ensures |es| == |FileNodes(nodes)|
  {
    if nodes == [] then []
    else
      var rest := WalkEntries(root, nodes[1..], sep);
      match nodes[0]
      case DirNode(_) => rest
      case FileNode(p, st) => [FileEntry(DestNameAsWritten(root, p, sep), st, sep)] + rest
  }

  /** The entries of a walk are the non-directory objects, each under its
      destination name: directories are never framed. */
  lemma {:induction false} WalkEntriesAreFiles(root: seq<byte>, nodes: seq<Node>, sep: byte)
    requires ValidWalk(root, nodes, sep)
    ensures forall i :: 0 <= i < |FileNodes(nodes)| ==>
      WalkEntries(root, nodes, sep)[i]
        == FileEntry(DestNameAsWritten(root, FileNodes(nodes)[i].path, sep), FileNodes(nodes)[i].state, sep)
  {
    if nodes != [] {
      ValidWalkTail(root, nodes, sep);
      WalkEntriesAreFiles(root, nodes[1..], sep);
      WalkStep(root, nodes, sep);
      var files, es := FileNodes(nodes), WalkEntries(root, nodes, sep);
      var files', es' := FileNodes(nodes[1..]), WalkEntries(root, nodes[1..], sep);
      forall i | 0 <= i < |files|
        ensures es[i] == FileEntry(DestNameAsWritten(root, files[i].path, sep), files[i].state, sep)
      {
        if nodes[0].FileNode? && i > 0 {
          assert files[i] == files'[i - 1] && es[i] == es'[i - 1];
        }
      }
    }
  }

  /** One step of the walk: a directory adds nothing, any other object adds
      its entry in front. */
  lemma WalkStep(root: seq<byte>, nodes: seq<Node>, sep: byte)
    requires nodes != [] && ValidWalk(root, nodes, sep)
    ensures ValidWalk(root, nodes[1..], sep)
    ensures nodes[0].DirNode? ==> FileNodes(nodes) == FileNodes(nodes[1..])
    ensures nodes[0].DirNode? ==> WalkEntries(root, nodes, sep) == WalkEntries(root, nodes[1..], sep)
    ensures nodes[0].FileNode? ==> FileNodes(nodes) == [nodes[0]] + FileNodes(nodes[1..])
    ensures nodes[0].FileNode? ==>
      var e := FileEntry(DestNameAsWritten(root, nodes[0].path, sep), nodes[0].state, sep);
      WalkEntries(root, nodes, sep) == [e] + WalkEntries(root, nodes[1..], sep)
  {
    ValidWalkTail(root, nodes, sep);
  }

  lemma ValidWalkTail(root: seq<byte>, nodes: seq<Node>, sep: byte)
    requires nodes != [] && ValidWalk(root, nodes, sep)
    ensures ValidWalk(root, nodes[1..], sep)
  {
    forall i | 0 <= i < |nodes| - 1 && nodes[1..][i].FileNode?
      ensures |DestNameAsWritten(root, nodes[1..][i].path, sep)| < TwoTo63 && ValidState(nodes[1..][i].state)
    {
      assert nodes[1..][i] == nodes[i + 1];
    }
  }

  /** The directory walk: skip directories, send every other object, stop at
      the first object that fails. */
  function SendWalk(root: seq<byte>, nodes: seq<Node>, sep: byte): (s: Sent)
    requires ValidWalk(root, nodes, sep)
    ensures s.error.None? <==> forall n :: n in nodes && n.FileNode? ==> Complete(n.state)
    ensures s.error.None? ==> s.out == EncodeEntries(WalkEntries(root, nodes, sep))
    ensures s.error.Some? ==> s.out < EncodeEntries(WalkEntries(root, nodes, sep))
  {
    if nodes == [] then Sent([], None)
    else
      var rest := nodes[1..];
      assert forall n :: n in nodes <==> n == nodes[0] || n in rest;
      match nodes[0]
      case DirNode(_) => SendWalk(root, rest, sep)
      case FileNode(p, st) =>
        var e := FileEntry(DestNameAsWritten(root, p, sep), st, sep);
        var f := SendFile(p, DestNameAsWritten(root, p, sep), st, sep);
        var es := WalkEntries(root, rest, sep);
        assert WalkEntries(root, nodes, sep) == [e] + es;
        assert EncodeEntries([e] + es) == EncodeEntry(e) + EncodeEntries(es) by {
          assert ([e] + es)[0] == e && ([e] + es)[1..] == es;
        }
        if f.error.Some? then
          PrefixExtends(f.out, EncodeEntry(e), EncodeEntries(es));
          f
        else
          var r := SendWalk(root, rest, sep);
          PrefixAfter(EncodeEntry(e), r.out, EncodeEntries(es));
          Sent(f.out + r.out, r.error)
  }

  lemma PrefixExtends(p: seq<byte>, a: seq<byte>, b: seq<byte>)
    requires p < a
    ensures p < a + b
  {
    assert (a + b)[..|p|] == a[..|p|];
  }

  lemma PrefixAfter(a: seq<byte>, p: seq<byte>, b: seq<byte>)
    ensures p < b ==> a + p < a + b
  {
    if p < b {
      assert (a + b)[..|a + p|] == a + b[..|p|];
    }
  }

  /** Every object that will be framed can be named on the wire. */
  predicate ValidRoot(root: Root, sep: byte) {
    match root
    case Missing(_) => true
    case SingleFile(path, st) => |Base(path, sep)| < TwoTo63 && ValidState(st)
    case Directory(path, walk) => ValidWalk(path, walk, sep)
  }

  /** The entries a shared object is meant to produce. A single file is sent
      under its base name. */
  function RootEntries(root: Root, sep: byte): (es: seq<Entry>)
    requires ValidRoot(root, sep)
    ensures AllWellFormed(es)
  {
    match root
    case Missing(_) => []
    case SingleFile(path, st) => [FileEntry(Base(path, sep), st, sep)]
    case Directory(path, walk) => WalkEntries(path, walk, sep)
  }

  /** Every object of the root can be sent in full. */
  predicate Readable(root: Root) {
    match root
    case Missing(_) => false
    case SingleFile(_, st) => Complete(st)
    case Directory(_, walk) => forall n :: n in walk && n.FileNode? ==> Complete(n.state)
  }

  /** `sendObjectToClient`: the frames, then the terminator written once and
      only when every frame went out; after a failure the output stops inside
      the intended session, so it never carries that terminator. */
  function SendObject(root: Root, sep: byte): (s: Sent)
    requires ValidRoot(root, sep)
    ensures s.error.None? <==> Readable(root)
    ensures s.error.None? ==> s.out == EncodeSession(RootEntries(root, sep))
    ensures s.error.Some? ==> s.out < EncodeSession(RootEntries(root, sep))
  {
    match root
    case Missing(path) => Sent([], Some(OpenFailed(path)))
    case SingleFile(path, st) =>
      var e := FileEntry(Base(path, sep), st, sep);
      assert EncodeEntries([e]) == EncodeEntry(e) + [] by {
        assert [e][1..] == [];
      }
      Terminate(SendFile(path, Base(path, sep), st, sep), [e])
    case Directory(path, walk) =>
      Terminate(SendWalk(path, walk, sep), WalkEntries(path, walk, sep))
  }

  /** Appends the terminator to a walk that succeeded. */
  function Terminate(s: Sent, es: seq<Entry>): (t: Sent)
    requires AllWellFormed(es)
    requires s.error.None? ==> s.out == EncodeEntries(es)
    requires s.error.Some? ==> s.out < EncodeEntries(es)
    ensures t.error == s.error
    ensures t.error.None? ==> t.out == EncodeSession(es)
    ensures t.error.Some? ==> t.out < EncodeSession(es)
  {
    if s.error.None? then Sent(s.out + Terminator(), None)
    else
      PrefixExtends(s.out, EncodeEntries(es), Terminator());
      s
  }
}
