/**
  Path handling on both sides of the wire. Paths are byte strings; the host
  separator is a parameter (`/` on Unix, `\` on Windows) and `/` is the
  separator used on the wire.
*/
module Paths {
  import opened LittleEndian
  import opened Wrappers

  const Slash: byte := 47
  const Dot: byte := 46

  /** Sender side: every host separator becomes `/` (`strings.ReplaceAll`). */
  function ToSlash(name: seq<byte>, sep: byte): (wire: seq<byte>)
    ensures |wire| == |name|
    ensures sep != Slash ==> sep !in wire
    ensures forall i :: 0 <= i < |name| && name[i] == sep ==> wire[i] == Slash
    ensures forall i :: 0 <= i < |name| && name[i] != sep ==> wire[i] == name[i]
  {
    seq(|name|, i requires 0 <= i < |name| => if name[i] == sep then Slash else name[i])
  }

  /** Receiver side: every `/` becomes the host separator (`filepath.FromSlash`). */
  function FromSlash(wire: seq<byte>, sep: byte): (name: seq<byte>)
    ensures |name| == |wire|
    ensures sep != Slash ==> Slash !in name
    ensures forall i :: 0 <= i < |wire| && wire[i] == Slash ==> name[i] == sep
    ensures forall i :: 0 <= i < |wire| && wire[i] != Slash ==> name[i] == wire[i]
  {
    seq(|wire|, i requires 0 <= i < |wire| => if wire[i] == Slash then sep else wire[i])
  }

  /** A host name survives the trip to the wire and back unless it holds a `/`
      that is not the host separator. */
  lemma FromSlashToSlash(name: seq<byte>, sep: byte)
    requires sep == Slash || Slash !in name
    ensures FromSlash(ToSlash(name, sep), sep) == name
  {
  }

  /** A wire name survives the trip to the host and back unless it holds the
      host separator itself. */
  lemma ToSlashFromSlash(wire: seq<byte>, sep: byte)
    requires sep == Slash || sep !in wire
    ensures ToSlash(FromSlash(wire, sep), sep) == wire
  {
  }

  /** Position of the last occurrence of `sep` in `p`, if any. */
  function LastSep(p: seq<byte>, sep: byte): (r: Option<nat>)
    ensures r.None? ==> sep !in p
    ensures r.Some? ==> r.value < |p| && p[r.value] == sep && sep !in p[r.value + 1..]
  {
    if |p| == 0 then None
    else if p[|p| - 1] == sep then Some(|p| - 1)
    else
      var r := LastSep(p[..|p| - 1], sep);
      assert p[..|p| - 1] + [p[|p| - 1]] == p;
      r
  }

  /** `filepath.Dir` on a clean path: everything before the last separator,
      the separator itself for a child of the file-system root, `.` when there
      is no separator. */
  function Dir(p: seq<byte>, sep: byte): (d: seq<byte>)
    ensures d != []
  {
    match LastSep(p, sep)
    case None => [Dot]
    case Some(i) => if i == 0 then [sep] else p[..i]
  }

  /** `Dir` is `.` without a separator; otherwise it is the part before the
      last separator, or the separator itself when that is the first byte. */
  lemma DirIsParent(p: seq<byte>, sep: byte)
    ensures sep !in p ==> Dir(p, sep) == [Dot]
    ensures sep in p ==>
      var d := Dir(p, sep);
      || (d == [sep] && p[0] == sep && sep !in p[1..])
      || (d < p && p[|d|] == sep && sep !in p[|d| + 1..])
  {
  }

  /** `filepath.Base` on a clean path: everything after the last separator. */
  function Base(p: seq<byte>, sep: byte): (b: seq<byte>)
    ensures sep !in b
  {
    match LastSep(p, sep)
    case None => p
    case Some(i) => p[i + 1..]
  }

  /** `filepath.Join` of a directory and a relative name. */
  function Join(d: seq<byte>, rel: seq<byte>, sep: byte): seq<byte> {
    if d == [Dot] then rel
    else if d == [sep] then [sep] + rel
    else d + [sep] + rel
  }

  /** The simplified `Dir`/`Join` assume a clean path: no leading `./` or `//`. */
  predicate CleanStart(p: seq<byte>, sep: byte) {
    !(|p| >= 2 && p[1] == sep && (p[0] == Dot || p[0] == sep))
  }

  /** A clean path is its directory joined with its base name. */
  lemma JoinDirBase(p: seq<byte>, sep: byte)
    requires sep != Dot && CleanStart(p, sep)
    ensures Join(Dir(p, sep), Base(p, sep), sep) == p
  {
    match LastSep(p, sep)
    case None =>
    case Some(i) =>
      if i != 0 {
        assert p[..i] != [Dot] && p[..i] != [sep] by {
          assert i == 1 ==> p[..i] == [p[0]];
        }
        assert p[..i] + [sep] + p[i + 1..] == p;
      } else {
        assert [sep] + p[1..] == p;
      }
  }

  /** `strings.TrimPrefix`. */
  function TrimPrefix(s: seq<byte>, prefix: seq<byte>): (r: seq<byte>)
    ensures prefix <= s ==> s == prefix + r
    ensures !(prefix <= s) ==> r == s
  {
    if prefix <= s then s[|prefix|..] else s
  }

  /** The destination name of a walked path as server.go computes it: strip
      `Dir(root)` as a string prefix, then one leading separator. */
  function DestNameAsWritten(root: seq<byte>, path: seq<byte>, sep: byte): (r: seq<byte>)
    ensures var d := Dir(root, sep);
      && (d + [sep] <= path ==> r == path[|d| + 1..])
      && (d <= path && !(d + [sep] <= path) ==> r == path[|d|..])
      && (!(d <= path) && [sep] <= path ==> r == path[1..])
      && (!(d <= path) && !([sep] <= path) ==> r == path)
  {
    TrimPrefix(TrimPrefix(path, Dir(root, sep)), [sep])
  }

  /** The destination name the walk intends: the path relative to `Dir(root)`.
      It differs from `DestNameAsWritten` only when `Dir(root)` is `.`, where
      the walked paths are already relative and must be kept whole. */
  function DestName(root: seq<byte>, path: seq<byte>, sep: byte): seq<byte> {
    if Dir(root, sep) == [Dot] then path else DestNameAsWritten(root, path, sep)
  }

  /** The corrected destination name recovers the relative part of every path
      that lies below `Dir(root)`. */
  lemma DestNameRecoversRelative(root: seq<byte>, rel: seq<byte>, sep: byte)
    requires rel != [] && rel[0] != sep
    ensures DestName(root, Join(Dir(root, sep), rel, sep), sep) == rel
  {
    var d := Dir(root, sep);
    if d != [Dot] {
      if d != [sep] {
        assert d + [sep] + rel == d + ([sep] + rel);
      }
    }
  }

  /** As written, the name is recovered whenever `Dir(root)` is not `.`. */
  lemma DestNameAsWrittenRecoversRelative(root: seq<byte>, rel: seq<byte>, sep: byte)
    requires rel != [] && rel[0] != sep
    requires Dir(root, sep) != [Dot]
    ensures DestNameAsWritten(root, Join(Dir(root, sep), rel, sep), sep) == rel
  {
    DestNameRecoversRelative(root, rel, sep);
  }

  /** As written, sharing the directory `.c` (Dir is `.`) sends its file
      `.c/x` under the name `c/x`: the leading dot is stripped as if it were
      the directory prefix. */
  lemma DestNameAsWrittenDropsLeadingDot()
    ensures DestNameAsWritten([Dot, 'c' as byte], [Dot, 'c' as byte, Slash, 'x' as byte], Slash)
         == ['c' as byte, Slash, 'x' as byte]
    ensures DestName([Dot, 'c' as byte], [Dot, 'c' as byte, Slash, 'x' as byte], Slash)
         == [Dot, 'c' as byte, Slash, 'x' as byte]
  {
    var root := [Dot, 'c' as byte];
    assert LastSep(root, Slash) == None;
  }

  /** Where the receiver writes a wire name: separators converted to the host's,
      under the output directory when one is given (`filepath.Clean` is taken
      as the identity). */
  function LocalPath(outDir: seq<byte>, wire: seq<byte>, sep: byte): (p: seq<byte>)
    ensures |p| == (if outDir == [] then 0 else |outDir| + 1) + |wire|
    ensures outDir != [] ==> outDir + [sep] <= p
    ensures forall i :: 0 <= i < |wire| ==>
      p[|p| - |wire| + i] == (if wire[i] == Slash then sep else wire[i])
  {
    if outDir == [] then FromSlash(wire, sep) else outDir + [sep] + FromSlash(wire, sep)
  }
}
