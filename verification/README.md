# Hoist wire protocol, modelled in Dafny

Hoist shares a file or a directory tree over one TCP connection. The sender
waits for a client. It checks the password the client sends, then streams
every file under the shared path as a frame, and ends with a terminator.
The receiver authenticates, then reads frames until it sees the terminator.
It writes each file under an output directory and reports the transfer
speed while it copies.

This project models that protocol as pure functions over byte sequences.
A connection is the sequence of bytes one side writes. A read that runs out
of bytes is the connection closing early.

- `LittleEndian` (`le64.dfy`): `binary.Write`/`binary.Read` of an `int64`.
  This is eight little-endian bytes in two's complement, proved to be a
  bijection between int64 values and 8-byte blocks.
- `Paths` (`paths.dfy`): the path arithmetic both sides do on names.
  - The separator is rewritten to `/` on the wire and back on arrival.
  - `filepath.Base` gives a single shared file its name.
  - The sender strips the shared root's parent from walked paths.
  - The receiver joins names under the output directory.
- `Frames` (`frames.dfy`): what a file frame, a symlink frame, the
  terminator and a whole session look like on the wire.
- `Receiver` (`receiver.dfy`): the client's receive loop, one frame at a
  time. It records the entries it completed, a file left half written, and
  the error that stopped it.
- `Sender` (`sender.dfy`): `sendFileToClient` and `sendObjectToClient`. This
  includes the directory walk and the strict prefix of the session that is
  written when a file cannot be read.
- `Handshake` (`handshake.dfy`): padding the password with `0` up to the
  maximum length, the server's check and reply byte, and the client's
  reading of that byte.
- `Progress` (`progress.dfy`): the counting reader that reports running
  totals, and the MiB-per-second sampler of the receiver's callback.
- `Session` (`session.dfy`): one whole connection, end to end.

The central results are these:
- The receiver reads back exactly the entries the sender framed, and stops
  at the terminator (`Receiver.ReceiveSession`).
- A session cut anywhere before the end of its terminator makes the receive
  fail (`Receiver.CutSessionAborts`). A sender that stops on an error
  therefore never looks like a success.
- The server accepts a client exactly when the client's padded block starts
  with the padded secret (`Handshake.HandshakeAgreement`). For passwords no
  longer than the maximum, this means the two agree after trailing `0`s are
  removed (`Handshake.PadEqualIffSameTrimmed`). A longer client password is
  sent in full, and it is accepted whenever it starts with the padded secret
  (`Handshake.LongerPasswordAccepted`).
- A readable object arrives as the same files, in walk order, each at the
  local path of the name the sender computed and holding the bytes the
  sender read (`Session.SingleFileArrives`, `Session.DirectoryArrives`).

The host's path separator (`sep`) is a parameter. So is the maximum
password length (`maxLen`), because the package that defines it
(`src/values`) is not part of this model. The clock readings of the speed
sampler are parameters too.

## Model

| member | source | states |
|---|---|---|
| LittleEndian.EncodeInt64 | src/server/server.go:163-166 | an int64 is written as exactly eight bytes |
| LittleEndian.DecodeInt64 | src/client/client.go:39-40 | eight bytes always read back as an int64, negative exactly when the top bit of the last byte is set |
| LittleEndian.DecodeEncodeInt64 | src/server/server.go:141 | a value written by the sender reads back unchanged on the receiver, so the -1 terminator and the sizes survive the trip |
| LittleEndian.EncodeDecodeInt64 | src/client/client.go:83-84 | every 8-byte block is the encoding of the value read from it, so the receiver's reading of the stream is unique |
| LittleEndian.EncodeInt64Injective | src/client/client.go:46-52 | distinct values have distinct encodings, so a length can never be mistaken for the -1 or -2 sentinels |
| LittleEndian.DecodeEncodeUnsigned | src/server/server.go:166 | an unsigned little-endian field of k bytes reads back as the value written, for values below 256^k |
| LittleEndian.EncodeDecodeUnsigned | src/client/client.go:40 | every k-byte field is the encoding of its own value |
| Paths.ToSlash | src/server/server.go:159-161 | the wire name has the same length, contains no host separator when that is not `/`, and keeps every other byte |
| Paths.FromSlash | src/client/client.go:70-71 | the host name has the same length, has the separator wherever the wire name had `/`, and keeps every other byte |
| Paths.FromSlashToSlash | src/client/client.go:71 | a name the sender rewrote to `/` comes back unchanged on a receiver with the same separator, unless the name itself contains `/` on a host with another separator |
| Paths.ToSlashFromSlash | src/server/server.go:161 | a wire name converted to host form and back is unchanged, unless the host separator is not `/` and the wire name holds the host separator itself (then it comes back as `/`) |
| Paths.Dir | src/server/server.go:119 | the parent of a path is never empty |
| Paths.DirIsParent | src/server/server.go:119 | the parent is `.` when there is no separator; otherwise it is everything before the last separator, or the separator itself when that is the path's only separator and comes first |
| Paths.Base | src/server/server.go:132 | the final element contains no separator |
| Paths.JoinDirBase | src/server/server.go:119-132 | for a clean path, joining its parent and its final element gives the path back |
| Paths.TrimPrefix | src/server/server.go:119-120 | strips the prefix only when it is there; otherwise the text is unchanged |
| Paths.DestNameAsWritten | src/server/server.go:119-120 | the destination name as the code computes it: a path that starts with the root's parent and a separator loses both; one that starts with the parent alone loses the parent; one without the parent loses only a leading separator, if it has one |
| Paths.DestNameRecoversRelative | src/server/server.go:119-120 | the destination name of a walked path is the path relative to the shared root's parent, for every root |
| Paths.DestNameAsWrittenRecoversRelative | src/server/server.go:119-120 | the code as written gives that relative path whenever the root's parent is not `.` |
| Paths.DestNameAsWrittenDropsLeadingDot | src/server/server.go:119 | with the root's parent equal to `.`, the code as written strips the leading `.` of a hidden top-level name |
| Paths.LocalPath | src/client/client.go:70-75 | the local path starts with the output directory and one separator when a directory is given, and then holds the wire name byte for byte with every `/` turned into the host separator |
| Frames.Terminator | src/server/server.go:140-141 | the end-of-session marker is one eight-byte field |
| Frames.EncodeEntry | src/server/server.go:163-195 | a file frame is 16 bytes plus its name and payload; a symlink frame is 16 bytes plus its metadata |
| Receiver.DecodeFrame | src/client/client.go:37-68 | one loop iteration: it stops exactly on -1 and leaves the rest unread; an accepted frame is exactly the encoding of a well-formed entry followed by the unread rest; a half-written file exists only after a file-size or payload failure |
| Receiver.DecodeSymlink | src/client/client.go:152-167 | the metadata size and bytes are read; a negative size fails, and a short read fails |
| Receiver.DecodeFile | src/client/client.go:82-144 | an accepted file frame is the size field followed by exactly that many payload bytes after the name, with the rest left unread; a half-written file keeps the frame's name |
| Receiver.PartialFileOnDisk | src/client/client.go:82-144 | a file is left behind exactly when the size was read and is negative or larger than what followed; a negative size leaves it empty because the truncation fails; otherwise it has the announced size, starting with the bytes that arrived and padded with zeros |
| Receiver.DecodeEncodeEntry | src/client/client.go:40-144 | the frame of any well-formed entry, followed by anything, decodes to that entry and leaves the rest unread |
| Receiver.Receive | src/client/client.go:37-149 | every entry read is well formed; a partial file only on an abort; a finished receive consumed exactly a session of the entries it reports |
| Receiver.ReceiveSession | src/client/client.go:37-149 | a whole session followed by any bytes is read back as exactly its entries, in order, with those bytes left unread |
| Receiver.ReceiveAfterFrame | src/client/client.go:59 | after a complete frame the loop carries on with the rest as if the frame were not there |
| Receiver.CutFrameBreaks | src/client/client.go:40-68 | a frame cut anywhere before its end never decodes |
| Receiver.CutSessionAborts | src/client/client.go:37-149 | a session cut anywhere before the end of its terminator makes the receive fail |
| Receiver.ShortPayloadLeavesTruncatedFile | src/client/client.go:90-144 | a short payload leaves the bytes that arrived followed by zeros, up to the announced size |
| Receiver.Effects | src/client/client.go:70-146 | the files written, in order: one per completed entry under its local path, then the half-written file, at its local path and with its contents on disk, if there is one |
| Receiver.EffectsOfSession | src/client/client.go:37-149 | a whole session leaves exactly its entries on disk, in order, and no half-written file |
| Sender.Intended | src/server/server.go:186-195 | the payload a file frame announces has the size `Stat` reported |
| Sender.SendFile | src/server/server.go:150-202 | the frame is sent in full exactly when the file opens, stats and reads in full; a failure leaves a strict prefix of that frame |
| Sender.FileNodes | src/server/server.go:114-117 | the objects framed are exactly the walk's non-directory objects; a one-object walk yields that object if it is not a directory and nothing otherwise |
| Sender.FileNodesAppend | src/server/server.go:114-129 | the objects that get a frame keep walk order: filtering two consecutive stretches of a walk gives the files of the first, then those of the second |
| Sender.WalkEntries | src/server/server.go:114-129 | every entry of the walk can be framed, and there is exactly one per non-directory object (their names are stated by `Sender.WalkEntriesAreFiles`) |
| Sender.WalkEntriesAreFiles | src/server/server.go:114-122 | each entry holds the object's contents under the name server.go computes: the walked path with the root's parent and then one separator stripped, written with `/` separators |
| Sender.SendWalk | src/server/server.go:114-129 | the walk succeeds exactly when every non-directory object can be read in full; then it writes their frames in walk order, and otherwise a strict prefix of them |
| Sender.RootEntries | src/server/server.go:112-134 | the entries of the shared object are all well formed |
| Sender.SendObject | src/server/server.go:101-148 | success exactly when the shared object can be read; then the frames and one terminator are written, and otherwise a strict prefix of that session |
| Sender.Terminate | src/server/server.go:136-147 | the terminator is appended only after a walk that succeeded; an error is passed on and leaves a strict prefix |
| Handshake.Pad | src/server/server.go:72-75 | the block is the password followed by `0`s, with length the larger of the password's and the maximum |
| Handshake.PadTrimmed | src/server/server.go:72-75 | padding a secret no longer than the maximum and padding its trimmed form give the same block |
| Handshake.PadEqualIffSameTrimmed | src/server/server.go:72-92 | two secrets no longer than the maximum are accepted for each other exactly when they agree after trailing `0`s are removed |
| Handshake.TrailingFillerIndistinguishable | src/client/client.go:200-203 | a short password and the same password with one more `0` send the same block |
| Handshake.VerifyPassword | src/server/server.go:71-99 | accepted exactly when the client's first bytes are the padded secret and the reply byte goes out; a short read fails; any other block is rejected; reply `1` only on acceptance; a rejection writes the `0` byte when the write goes through, and a failed read or failed notification writes nothing |
| Handshake.Authenticate | src/client/client.go:199-226 | the client sends the padded password and succeeds exactly when a reply byte arrives and is not 0 |
| Handshake.HandshakeAgreement | src/server/server.go:77-92 | for client passwords of any length: the server accepts exactly when the client's block starts with the padded secret and refuses a block that is long enough but differs; the client then succeeds with exactly the bytes after the result byte, reports the wrong password on a refusal, and gets no reply when its block is too short |
| Handshake.AcceptedWithinMaxIffEqual | src/server/server.go:79-85 | for passwords no longer than the maximum, acceptance is equality of the padded blocks |
| Handshake.LongerPasswordAccepted | src/client/client.go:199-206 | a client password longer than the maximum is sent unpadded, and it is accepted when it starts with the padded secret, although its block differs from the secret's |
| Progress.Read | src/util/log-progress-reader.go:11-20 | a successful read adds its count to the total and reports the new total; a failed read changes nothing and reports nothing; the inner result is passed on |
| Progress.ReadAll | src/util/log-progress-reader.go:11-20 | over any run of reads the total grows by the bytes of successful reads, with one report each, in non-decreasing order, the last equal to the total |
| Progress.CompleteExactlyAtEnd | src/client/client.go:112-113 | when the copy delivers exactly the file size, only the last report says the copy is complete |
| Progress.GoDiv | src/client/client.go:122 | Go's int64 division truncates toward zero |
| Progress.TruncatedDivision | src/client/client.go:122 | on non-negative values it is the largest quotient whose product does not exceed the dividend |
| Progress.Speed | src/client/client.go:120-122 | the speed is whole MiB over whole seconds; the divisor is at least one second, and the speed is non-negative |
| Progress.OnProgress | src/client/client.go:112-125 | complete exactly when the total equals the file size; the sampler changes only after a window of at least 1000 ms, and then restarts at the current total |
| Progress.FirstWindow | src/client/client.go:103-125 | the first window opens one millisecond before the copy: callbacks in the first 999 ms keep the speed at zero, and a later one measures whole MiB over whole seconds since then |
| Session.ServeConnection | src/server/server.go:50-69 | a client that is not accepted gets at most the single `0` byte; an accepted one gets `1` followed by everything the sender writes |
| Session.GetFromServer | src/client/client.go:22-150 | the client sends the padded password, reads frames only after a non-zero reply, and succeeds exactly when the receive reaches the terminator |
| Session.TransferSucceeds | src/server/server.go:50-69 | a client whose block starts with the padded secret, and a readable object: the client receives exactly the object's entries and succeeds |
| Session.TransferRejected | src/server/server.go:53-57 | a block that does not start with the padded secret: the server sends only the `0` byte and the client reports the wrong password without reading a frame; a block shorter than the padded secret is modelled as a read that fails (see "## Left out") |
| Session.TransferInterrupted | src/server/server.go:136-138 | an accepted client and a file that cannot be read in full: the client fails instead of reporting success |
| Session.ReceivedPath | src/client/client.go:70-75 | the file lands at the sender's destination name in host form, under the output directory when one is given |
| Session.SingleFileArrives | src/server/server.go:130-134 | a readable single file arrives as one file at the local path of its base name, holding the bytes the sender read |
| Session.DirectoryArrives | src/server/server.go:114-129 | a readable directory arrives as one file per non-directory object, in walk order, each at the local path of the name server.go computes and holding the bytes the sender read |

## Left out

- Sockets, `net.Listen`/`net.Dial`, the accept loop and the per-connection goroutines (`src/server/server.go:18-48`) are left out. A connection is modelled as the bytes one side writes, delivered in order and then closed.
- Filesystem side effects are left out. `os.Create`, `MkdirAll`, `os.Symlink` and `Close` are assumed to succeed on the receiver. `Truncate` fails only on a negative size, which leaves an empty file and stops the receive. `Receiver.Effects` records what would be written.
- JSON decoding of symlink metadata (`src/client/client.go:169-194`) is left out. The metadata stays opaque bytes, and the link name and target are not derived from it.
- Receiver.Effects: a symlink entry is recorded by its opaque metadata only, not by the link name and target the JSON decodes to.
- Receiver.DecodeSymlink: accepts any metadata bytes. The source aborts the receive when `json.Unmarshal` rejects them (`src/client/client.go:171-175`), which includes empty metadata. That failure is not modelled.
- `filepath.Clean` is taken as the identity. `filepath.Dir` and `filepath.Base` are modelled for clean paths, without volume names.
- Walk order and walk errors are left out. The walk is a list of objects in visiting order. A walk error handed to the callback (a nil `info`, which the code dereferences) and the unchecked `Stat` error at `src/server/server.go:110-112` are not modelled.
- Connection write failures are modelled only for the password reply byte. Other failed writes appear as the connection ending early.
- The sender never emits symlink frames. Only the receiver side of the -2 frame is modelled.
- Progress.ReadAll: the running total is an unbounded integer, so the int64 wrap-around after 2^63 bytes is not modelled.
- Progress.OnProgress: the percentage (a float), the progress bar and all printing are left out. The clock readings are parameters.
- Receiver.DecodeFrame: an announced length too large to allocate is a short read here, not an out-of-memory failure.
- Session.TransferRejected: a block shorter than the padded secret is possible only when the secret is longer than `maxLen`, which `src/cmd/send.go:81-83` refuses. In the program both sides would then wait forever: the server for the rest of the block (`src/server/server.go:79`), the client for the reply byte (`src/client/client.go:214`). Blocking is not modelled, so the model shows this case as a read that fails: the server sends nothing and the client reports `NoResponse`.
- Session.GetFromServer: a failure to send the password (`src/client/client.go:206-210`) is not modelled. The block is always delivered.
- The value of `MAX_PASSWORD_LENGTH` is not known here, because `src/values` is not part of this model. It is the parameter `maxLen`.
- The command-line files (`src/cmd`, `src/main.go`) and `src/util/util.go` are not part of this model.

## Findings

| source | as written | input that shows it | evidently intended | confidence | as-written member | corrected member |
|---|---|---|---|---|---|---|
| src/server/server.go:119-120 | the destination name strips `filepath.Dir(root)` as plain text; when that parent is `.` it strips a leading `.` from every walked path | sharing the directory `.c` (given without any separator) that holds `x`: the walk visits `.c/x` and the name sent is `c/x` | the path relative to the root's parent, `.c/x`, kept unchanged when the parent is `.` | high; not executed | Paths.DestNameAsWrittenDropsLeadingDot | Paths.DestNameRecoversRelative |

The sender follows the code as written: `Sender.WalkEntries` and `Sender.SendWalk` name each object by `Paths.DestNameAsWritten`. `Paths.DestName` is the corrected name. `Paths.DestNameAsWrittenRecoversRelative` shows that the two agree whenever the shared directory's parent is not `.`.
