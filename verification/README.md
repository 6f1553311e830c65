# Verified model of Paramiko

A Dafny model of the parts of Paramiko, an SSHv2 implementation in Python, that hold most of its
state, branching and arithmetic, with proofs of what they promise. Code that changes fields step by
step is a class here, with methods proved against functions on the values of those fields; the
promises are lemmas about these functions, most of them over whole runs.

| file | what it models |
|---|---|
| `Options.dfy`, `Bytes.dfy` | an optional value; byte strings and big-endian numbers |
| `Util.dfy` | signed big integers as byte strings, the modular inverse (`util.py`) |
| `Message.dfy` | the SSH message codec and its cursor (`message.py`) |
| `Ber.dfy` | the nested ASN.1 encoder and decoder (`ber.py`) |
| `Pipe.dfy` | receive buffers behind one pollable descriptor (`pipe.py`, `buffered_pipe.py`, `channel.py`) |
| `Channel.dfy`, `FlowControl.dfy` | one channel endpoint; two of them with messages in flight (`channel.py`) |
| `BufferedFile.dfy` | buffered reading, `readline` with universal newlines, buffered writing (`file.py`) |
| `SftpFile.dfy` | the read-ahead cache of SFTP files (`sftp_file.py`) |
| `SftpAttr.dfy`, `SftpDir.dfy` | attribute blocks and directory listing (`sftp_attr.py`, `sftp_client.py`, `sftp_server.py`) |
| `Packet.dfy`, `Packetizer.dfy` | packet framing as functions on bytes; the object that reads and writes a socket (`packet.py`) |
| `KeyLifetime.dfy` | packet counters, rekeying and initialisation vectors (`packet.py`) |
| `Negotiate.dfy`, `KexInit.dfy` | algorithm negotiation from both ends; the KEXINIT message and its rebuilt copy (`transport.py`) |
| `DiffieHellman.dfy`, `KeyDerivation.dfy`, `Kex.dfy`, `KexGex.dfy`, `KexStart.dfy` | modular powers and secret exponents, derived keys, both Diffie-Hellman exchanges, and either of them from its KEXINIT messages on (`kex_group14.py`, `kex_gex.py`, `transport.py`) |
| `Interlock.dfy` | the `clear_to_send` interlock between threads (`transport.py`) |
| `StrictKex.dfy` | inbound dispatch and strict key exchange (`transport.py`) |
| `Auth.dfy` | server-side authentication (`auth_handler.py`, `transport.py`) |
| `ChannelIds.dfy` | channel id allocation (`transport.py`) |

Sockets, random numbers, callbacks and ciphers are parameters. A socket read or a response order is
any that the environment may choose; `os.urandom` is a list of draws; an application callback is
the answer it gives; ciphers, MACs, hashes and signatures are functions of which only the needed
laws are assumed (decryption undoes encryption, block-aligned updates compose, a digest is not empty).

## Where the code does not keep the obvious promise

Each of these is stated with the exact condition under which the promise holds, and an input that breaks it.

- `SFTPAttributes._unpack` (`paramiko/sftp_attr.py:112`) stores extended pairs the wrong way round:
  Python evaluates the right-hand side of the assignment first, so the first string read becomes
  the value, while `_pack` writes the key first. The pairs come back swapped, and of several with
  one value only the last is left. The dict survives if and only if every pair is there both ways
  round (`SftpAttributes.SameDictIff`, `SftpAttributes.OnePairComesBackSwapped`,
  `SftpDirectories.ArriveAsSentIff`).
- `readv` (`paramiko/sftp_file.py:484-529`) requests nothing for a block whose first byte is cached.
  If it requests nothing at all and nothing is pending, its reads are served by the cache alone. It
  then returns if and only if the cache serves the blocks one after another: for an unbuffered
  file and buffers that do not overlap, if every byte is cached and none is wanted twice. Otherwise
  it waits for a response that never comes (`SftpFiles.SftpFile.Readv`, `SftpFiles.DrainAllTidy`,
  `SftpFiles.PartlyCachedReadv`, `SftpFiles.RepeatedReadv`).
- `_data_in_prefetch_requests` (`paramiko/sftp_file.py:112-130`) looks only at the extent that starts
  last before the offset, so it can deny a range that is covered. It is right about every range if
  and only if, wherever an extent ends within another, the extent that starts last before that
  point goes on; so it is when none lies within another (`SftpFiles.InRequestsIsExactIff`,
  `SftpFiles.UnnestedIsExact`, `SftpFiles.DeniedThoughPending`).
- `readline(size)` with the `U` flag takes a CRLF pair that the limit cuts in two, while both bytes are
  buffered, for two newlines; this is the only such case (`BufferedFiles.BufferedFile.Readline`).
- Line-buffered `write` (`paramiko/file.py:372-406`) writes through the last newline only; a comment
  there promises more.
- An empty CHANNEL_DATA makes the descriptor of `fileno()` readable while a read would block; nothing
  else does (`Pipes.StepKeepsInv`, `Pipes.EmptyFeedIsSpurious`).
- Extended data of an unknown type (`paramiko/channel.py:1047-1055`) is dropped without being counted
  for a window adjustment, so the peer loses that much of its window (`FlowControl.UnknownTypeIsLost`).
- Bytes granted under the channel lock are sent after it is released, so data can follow our EOF: in
  some continuation, if and only if a thread holds granted bytes when EOF is set
  (`FlowControl.DataAfterEof`, `FlowControl.DataAfterEofIff`).
- A server without a modulus pack announces the group exchanges that it then refuses: the list is
  copied before it is filtered (`Negotiation.KexAgreement`, `Negotiation.FooledServer`).
- `_activate_outbound` resets `in_kex` when NEWKEYS is sent. The loop may then begin another exchange
  before the peer's NEWKEYS, and a user message can go out inside it (`Interlock.OverlapIsReachable`,
  `Interlock.OverlapBreaks`).
- In a group exchange the client hashes the sizes it asked for and the server those it settled on
  (`KexGroupExchange.SizesAgreeIff`, `KexGroupExchange.SameBytesHashed`).
- The comment in `_generate_x` of `kex_group14.py` speaks of a 1024-bit p; with the 2048-bit p of the
  class the bounds hold all the more (`DiffieHellman.GroupXInRange`, `KexGroup14.Group14IsLarge`).
- A keyboard-interactive response is accepted without a request or a username, and after authentication
  (`Auth.AuthenticatedIff`, `Auth.UnaskedInfoResponse`).
- The BER encoder writes booleans that the decoder refuses (`Ber.RoundTrip`). Zero is one byte as an
  mpint, where RFC 4251 section 5 wants none (`Util.MpintIsRfcIff`).

## Model

| member | source | states |
|---|---|---|
| Util.MpintValue | paramiko/util.py:41-90 | The reference mpint string of every integer reads back as that integer. |
| Util.MpintCanonical | paramiko/util.py:62-90 | It is canonical: no leading byte could be dropped. |
| Util.MpintOfSigned | paramiko/util.py:41-90 | A canonical string is the reference string of its own value. |
| Util.MpintIsShortest | paramiko/util.py:62-90 | Every non-empty string ends in the canonical string of its value, which is thus the unique shortest; a string is canonical iff it is that one. |
| Util.MpintIsRfcIff | paramiko/util.py:62-90 | The string is the shortest of all with that value, as RFC 4251 section 5 asks, iff the number is not zero. |
| Util.InflateLong | paramiko/util.py:41-59 | The padded, word-wise reading gives the two's-complement value of the string (RFC 4251 section 5), or its magnitude when the caller says positive. |
| Util.DeflateLong | paramiko/util.py:62-90 | With sign padding the result is the canonical string of the number; without, the shortest magnitude that decodes to it given the sign. |
| Util.InflateDeflate | paramiko/util.py:41-90 | Inflating a deflated integer gives it back, for every integer. |
| Util.DeflateInflate | paramiko/util.py:41-90 | Deflating an inflated string gives it back iff it was canonical. |
| Util.GcdIsGreatest | paramiko/util.py:212-224 | The reference gcd is a common divisor that every common divisor divides. |
| Util.RowStep | paramiko/util.py:215-221 | One step of the loop keeps both Bezout identities, the alternation of signs and the exact size of the cofactors. |
| Util.ModInverse | paramiko/util.py:212-224 | The loop ends with 0 <= r < m and r*x congruent to gcd(m, x) modulo m, for every x and m >= 2. |
| Util.InverseIffCoprime | paramiko/util.py:212-224 | Such an r is an inverse of x modulo m iff x and m are coprime. |
| Messages.SplitJoin | paramiko/message.py:192-198 | A name list survives joining and splitting iff it is not empty and no name has a comma. |
| Messages.DecodeEncode | paramiko/message.py:100-293 | A field read where it was written gives the field and leaves the cursor right behind it, for each of the eight kinds. |
| Messages.EncodeMeans | paramiko/message.py:185-301 | RFC 4251 section 5: what the bytes of each field are: numbers most significant byte first, strings behind their length, mpints canonical, names with single commas between. |
| Messages.RoundTrip | paramiko/message.py:100-293 | A message reads back field by field and consumes exactly its own bytes, whatever follows. |
| Messages.Message.SoFarAndRemainder | paramiko/message.py:80-98 | get_so_far and get_remainder always make up the content and move nothing. |
| Messages.Message.Add | paramiko/message.py:200-293 | Each add_* writes its encoding at the cursor, or raises exactly outside struct.pack's range; then nothing is written, except the marker byte of a large adaptive integer. |
| Messages.Message.AddAdaptiveInt | paramiko/message.py:239-250 | Four bytes below 0xff000000, a marker byte and an mpint from there on; the marker stands even where the length then does not fit. |
| Messages.Message.GetBytes | paramiko/message.py:100-111 | Byte for byte the content at the cursor; a short read is padded with zeros below one megabyte and cut otherwise. |
| Messages.Message.Get | paramiko/message.py:113-198 | Each get_* reads at the cursor what the decoding function reads there. |
| Messages.Transmit | paramiko/message.py:80-293 | Fields added one by one and read back by a receiver are the same fields, and get_so_far is exactly the encoding, with junk behind it. |
| Ber.RoundTrip | paramiko/ber.py:50-139 | Decoding the encoding of a tree of integers, nested in any way, gives the tree and consumes exactly its bytes, through short and long length forms; a tree with a boolean anywhere makes the decoder raise. |
| Ber.TreeLayout | paramiko/ber.py:107-140 | Tags 2, 1 and 0x30; a length in one byte up to 127, and above that in the fewest bytes that show it positive, behind their count. |
| Ber.ForestRoundTrip | paramiko/ber.py:97-105 | The same for the items of a sequence, decoded one after another. |
| Ber.BER.NextIdent | paramiko/ber.py:50-63 | The tag, with its base-128 continuation, and the cursor after it. |
| Ber.BER.NextField | paramiko/ber.py:64-83 | The length in short or long form, and the field, or nothing where the input ends early. |
| Ber.BER.Next | paramiko/ber.py:50-95 | decode_next computes a total function of content and cursor: it ends on every byte string. |
| Ber.BER.AddTlv | paramiko/ber.py:107-115 | Appends tag, length and value, the length in the shortest form. |
| Ber.BER.Encode | paramiko/ber.py:117-133 | encode appends the reference encoding of a tree, or raises where there is none. |
| Ber.EncodeDecode | paramiko/ber.py:47-139 | Encoding and then decoding returns the tree and stops at its end, whatever follows. |
| Pipes.StepKeepsInv | paramiko/pipe.py:57-71 | Every feed, read, empty and close keeps the agreement of the pipe with the OR-ed events, and keeps it exact iff it is not an empty feed of an idle buffer. |
| Pipes.RunKeepsInv | paramiko/buffered_pipe.py:59-200 | The same over any run. |
| Pipes.BytesArriveInOrder | paramiko/buffered_pipe.py:74-183 | Over any run, on either side, the bytes read followed by those buffered are those buffered at first followed by those fed. |
| Pipes.DescriptorIsFaithful | paramiko/channel.py:931-942 | After fileno(), over any run on both buffers: the pipe holds 0 or 1 byte, 1 whenever a buffer has data or is closed, and 0 otherwise in a run without empty feeds of idle buffers; a clear never reads an empty pipe. |
| Pipes.EmptyFeedIsSpurious | paramiko/buffered_pipe.py:82-96 | The failing case: an empty feed makes the descriptor readable while a read blocks. |
| Pipes.PosixPipe.Clear | paramiko/pipe.py:57-61 | Takes the byte out unless the pipe is clear or set for ever. |
| Pipes.PosixPipe.Set | paramiko/pipe.py:63-67 | Puts one byte in unless it is there or the pipe is closed. |
| Pipes.PosixPipe.SetForever | paramiko/pipe.py:69-71 | Sets the pipe so that no clear undoes it. |
| Pipes.OrPipe.Set | paramiko/pipe.py:127-130 | Sets the shared pipe unless the partner already has. |
| Pipes.OrPipe.Clear | paramiko/pipe.py:132-135 | Clears the shared pipe unless the partner is still set. |
| Pipes.MakeOrPipe | paramiko/pipe.py:138-148 | Two views of one pipe, partners of each other. |
| Pipes.Receiver.Fileno | paramiko/channel.py:931-942 | Creates the pipe and both views and sets each as its buffer demands. |
| Pipes.Receiver.FeedBuffer | paramiko/buffered_pipe.py:82-96 | Appends the data and sets the event; the state is that of the modelled step. |
| Pipes.Receiver.ReadBuffer | paramiko/buffered_pipe.py:156-168 | Takes the first bytes, at most nbytes and as many as there are, leaves the rest, and clears the event when the buffer is left empty and open; waits iff it is empty and open. |
| Pipes.Receiver.EmptyBuffer | paramiko/buffered_pipe.py:170-186 | Takes everything and clears the event unless closed. |
| Pipes.Receiver.CloseBuffer | paramiko/buffered_pipe.py:188-200 | Closes and sets the event for good. |
| Pipes.Receiver.HandleEof | paramiko/channel.py:1163-1174 | Closes both buffers and sets the pipe for ever, once. |
| Channels.Channel.Open | paramiko/channel.py:1003-1021 | The windows and clamped packet sizes that the open handshake leaves behind, with the threshold at a tenth of the window. |
| Channels.Channel.Reserve | paramiko/channel.py:1296-1331 | Grants nothing after EOF; otherwise at most the size, the window and the packet size less 64, and one of these exactly; the window pays for it. Reports a closed channel or an empty window. |
| Channels.Channel.TakeBytes | paramiko/channel.py:683-758 | Takes bytes from one receive buffer only and counts them. |
| Channels.Channel.CheckAddWindow | paramiko/channel.py:1274-1292 | Returns the credit once it passes the threshold and then restarts the count; none after EOF or close. |
| Channels.Channel.Feed | paramiko/channel.py:1039-1045 | Appends the data to the stdout buffer. |
| Channels.Channel.FeedExtended | paramiko/channel.py:1047-1058 | Type 1 goes to stderr, or to stdout when combined; any other type is dropped and not counted. |
| Channels.Channel.WindowAdjust | paramiko/channel.py:1060-1069 | Adds the credit to the outbound window. |
| Channels.Channel.SetCombineStderr | paramiko/channel.py:549-584 | Switches the flag and, when switched on, hands over all of the stderr buffer. |
| Channels.Channel.SendEof | paramiko/channel.py:1238-1247 | Announces EOF once. |
| Channels.Channel.CloseInternal | paramiko/channel.py:1249-1260 | Announces EOF if needed and closes once. |
| Channels.Channel.HandleEof | paramiko/channel.py:1163-1174 | Marks EOF received; the buffers keep their data. |
| FlowControl.StepGood | paramiko/channel.py:683-1331 | Every step of either endpoint, of a sending thread or of a queue keeps the joint invariant of bytes, credits and phases. |
| FlowControl.RunGood | paramiko/channel.py:683-1331 | The same over any run of two connected endpoints. |
| FlowControl.WindowIsFixed | paramiko/channel.py:1003-1010 | No run changes an announced window. |
| FlowControl.CloseHandshake | paramiko/channel.py:1176-1261 | RFC 4254 section 5.3: in every reachable state each side has sent exactly one close message if it has closed and none if not, and once either has taken the other's both have closed. |
| FlowControl.PacketsFit | paramiko/channel.py:1321-1328 | RFC 4254 section 5.2: in every reachable state no data message of either side, waiting or under way, carries more than the maximum the other announced, brought between 4096 and 2^32 - 1, less 64 bytes. |
| FlowControl.SendProgresses | paramiko/channel.py:1189-1208 | A side that may still send, with window left and something to send, sends at least one byte at once: all of it, the window, or a full packet; the window shrinks by that. |
| FlowControl.WindowConserved | paramiko/channel.py:1274-1331 | RFC 4254 section 5.2, in every reachable state: usable window, bytes held and in flight, both receive buffers, bytes not yet acknowledged and credits held and in flight add up to the initial window, in both directions; buffers never exceed it. |
| FlowControl.NoDeadlock | paramiko/channel.py:1274-1331 | Once all is drained at least W - W/10 > 0 of the window is usable again, and a sender without window is never alone with an idle channel. |
| FlowControl.NothingLost | paramiko/channel.py:1039-1058 | In every reachable state, what was read, buffered, being moved and in flight is exactly what was sent: in order per stream, as a multiset once streams are combined. |
| FlowControl.DataAfterEof | paramiko/channel.py:1189-1247 | The failing case: a thread that holds granted bytes sends them after EOF. |
| FlowControl.EofIsFinal | paramiko/channel.py:1189-1247 | With no granted bytes held, no step of this side sends data after EOF or comes to hold any. |
| FlowControl.HeldDataFollowsEof | paramiko/channel.py:1189-1207 | A thread that holds granted bytes can hand them over at any time. |
| FlowControl.DataAfterEofIff | paramiko/channel.py:1189-1247 | Once EOF is set, some continuation with any moves of either side sends data after it iff a thread holds granted bytes at that moment. |
| FlowControl.UnknownTypeIsLost | paramiko/channel.py:1047-1055 | Extended data of an unknown type leaves the account of its direction short by as many bytes. |
| BufferedFiles.NormIsTwoPasses | paramiko/file.py:215-318 | The one-pass normalisation is CRLF to LF and then CR to LF, and leaves no CR. |
| BufferedFiles.CutIsFaithful | paramiko/file.py:284-318 | Cutting a line at its first newline, with the pending-CR flag, keeps the normalised stream iff the cut does not split a buffered CRLF. |
| BufferedFiles.LinesMakeUpStream | paramiko/file.py:320-340 | The lines of a stream concatenate to it; each is non-empty, has no LF but a last one, and only the last may lack it. |
| BufferedFiles.BufferedFile.constructor | paramiko/file.py:462-500 | The mode letters and buffer size as flags. |
| BufferedFiles.BufferedFile.Read | paramiko/file.py:156-213 | read(size) returns exactly the next raw bytes, as many as asked for unless the stream ends, however it is split. |
| BufferedFiles.BufferedFile.ReadToEnd | paramiko/file.py:178-192 | A negative size returns all the rest. |
| BufferedFiles.BufferedFile.FillLine | paramiko/file.py:242-283 | The gathering loop keeps the pending stream and stops at a newline, the limit or the end, whichever comes first. |
| BufferedFiles.BufferedFile.Readline | paramiko/file.py:215-318 | The line is the first of the pending normalised stream, cut at the limit, and the rest stays pending, for every split of the stream; with both U and a limit, the stream is kept iff the limit does not fall inside a buffered CRLF, and the line is that one then. |
| BufferedFiles.BufferedFile.Readlines | paramiko/file.py:320-340 | The first lines of what is pending, just enough of them to make up the size hint or else all, the rest staying pending; IOError on a file closed or not open for reading. |
| BufferedFiles.BufferedFile.WriteAll | paramiko/file.py:502-515 | All bytes reach the stream in order through short writes; positions and size follow, also in append mode. |
| BufferedFiles.BufferedFile.Flush | paramiko/file.py:88-95 | The buffered bytes reach the stream and nothing stays behind. |
| BufferedFiles.BufferedFile.Close | paramiko/file.py:81-86 | Closes after a flush. |
| BufferedFiles.BufferedFile.Write | paramiko/file.py:372-406 | In each buffering mode, bytes in the stream plus bytes buffered are everything written, in order: unbuffered all go out, line-buffered those through the last newline, buffered none until there are bufsize of them and then all. |
| BufferedFiles.BufferedFile.WriteLines | paramiko/file.py:391-401 | Line buffering writes up to the last newline and keeps the rest, which has none. |
| SftpFiles.InRequestsIsSound | paramiko/sftp_file.py:112-130 | The recursive coverage test ends, and when it says yes every byte of the range lies in a pending extent. |
| SftpFiles.InRequestsIsExactIff | paramiko/sftp_file.py:112-130 | The test says yes to exactly the covered ranges iff, wherever an extent ends within another, the one starting last before that point goes on. |
| SftpFiles.UnnestedIsExact | paramiko/sftp_file.py:112-130 | With no extent inside another it says yes to exactly the covered ranges. |
| SftpFiles.NestedMayBeHandedOn | paramiko/sftp_file.py:112-130 | Nesting alone does not defeat it: a nested extent followed by another that takes over. |
| SftpFiles.DeniedThoughPending | paramiko/sftp_file.py:548-565 | The failing list, reached by sending two prefetch requests. |
| SftpFiles.InRequestsIsIncomplete | paramiko/sftp_file.py:112-130 | The failing case: a range covered by a pending extent, of which it says no. |
| SftpFiles.DataInPrefetchBuffers | paramiko/sftp_file.py:132-147 | Returns the last buffer at or before the offset iff it reaches beyond it. |
| SftpFiles.CutIsGenuine | paramiko/sftp_file.py:158-177 | Splitting and re-keying a buffer hands out the right bytes of the file and leaves only right ones, none of them new. |
| SftpFiles.PiecesTile | paramiko/sftp_file.py:469-482 | The requests for a range lie end to end over it, each of 32768 bytes but a last one that may be shorter. |
| SftpFiles.DrainTidy | paramiko/sftp_file.py:149-177 | With buffers that do not overlap and no read buffer, a range is served iff every byte of it is cached, and those bytes, no others, leave the cache. |
| SftpFiles.DrainAllTidy | paramiko/sftp_file.py:525-527 | Successive blocks are served iff every byte is cached and none is wanted twice. |
| SftpFiles.SftpFile.ThreadSends | paramiko/sftp_file.py:548-565 | The prefetch thread sends a request and records its extent behind the others. |
| SftpFiles.SftpFile.Answer | paramiko/sftp_file.py:567-587 | Any outstanding request is answered: with any non-empty part, which goes into the cache and takes the extent away, or with an error, which is kept. |
| SftpFiles.SftpFile.ReadResponse | paramiko/sftp_client.py:884-919 | Any requests and one answer happen while the reader waits; it waits in vain only if nothing is pending. |
| SftpFiles.SftpFile.ReadPrefetch | paramiko/sftp_file.py:149-177 | Whatever it returns from the cache is what a direct read would return; it returns whenever the missing byte is still to come, and with nothing to come iff the cache serves the position. |
| SftpFiles.SftpFile.ReadSome | paramiko/sftp_file.py:179-190 | The same for _read, cache or server. |
| SftpFiles.SftpFile.Seek | paramiko/sftp_file.py:258-272 | The three origins, and an empty read buffer. |
| SftpFiles.SftpFile.Read | paramiko/file.py:173-213 | Over any run of prefetching and any order of responses, read(size) returns F[pos..min(pos+size, |F|)] and advances by as much; with nothing to come it returns iff the cache serves the range. |
| SftpFiles.SftpFile.Prefetch | paramiko/sftp_file.py:438-482 | Requests cover exactly the rest of the file from the current position, in pieces of at most the maximum. |
| SftpFiles.SftpFile.Gather | paramiko/sftp_file.py:508-521 | The requests of readv: the pieces of every block that is not taken to be cached or on its way, in order, and none for the others. |
| SftpFiles.SftpFile.ReadBlocks | paramiko/sftp_file.py:525-527 | Every block returned is its slice of the file. |
| SftpFiles.SftpFile.Readv | paramiko/sftp_file.py:484-529 | Every block returned is its slice of the file. All are returned unless nothing is requested or pending; then iff the cache alone serves the blocks one after another, and otherwise it waits for ever. |
| SftpFiles.PartlyCachedReadv | paramiko/sftp_file.py:509-527 | The failing case: a block cached in part, after prefetching. |
| SftpFiles.RepeatedReadv | paramiko/sftp_file.py:167-177 | The other: a cached byte wanted twice. |
| Packets.PaddingAligns | paramiko/packet.py:676-692 | RFC 4253 section 6: padding is at least 4 bytes, less than a block more, at most 255, and what is encrypted is a whole number of blocks, in all framings. |
| Packets.SendLayout | paramiko/packet.py:414-468 | RFC 4253 section 6: the body is padding length, data and padding; the length in front counts it; the MAC covers sequence number and packet, or what is sent of it, and an AEAD cipher takes the length as associated data; the sequence number and the AEAD counter go up by one. |
| Packets.AcceptedIsAuthentic | paramiko/packet.py:488-594 | What is read off any stream is authentic: the MAC after it verifies over the sequence number expected and the packet, or the AEAD cipher opens it; the payload is what stands between padding length and padding. |
| Packets.ClearRoundTrip | paramiko/packet.py:414-590 | An unencrypted packet reads back. |
| Packets.AeadRoundTrip | paramiko/packet.py:414-590 | An AEAD packet reads back. |
| Packets.EtmRoundTrip | paramiko/packet.py:414-590 | An encrypt-then-MAC packet reads back. |
| Packets.MacRoundTrip | paramiko/packet.py:414-590 | A packet with a MAC over its plaintext reads back, its first block decrypted before the others. |
| Packets.PacketRoundTrip | paramiko/packet.py:414-590 | In any framing a receiver in the sender's state gets the payload, leaves the bytes after the packet, and ends in the sender's new state: same sequence number, vector and compression. |
| Packets.SessionRoundTrip | paramiko/packet.py:414-590 | Over any sequence of packets, cipher switches and strict resets the receiver gets exactly the payloads sent, in order, and ends in the sender's state. |
| KeyLifetime.NextKeepsInv | paramiko/packet.py:470-484 | Sending, receiving and switching keep the inbound bounds, which tie packet counts to the rekey request and its overflow; for the outbound side see OutboundKeyLifetime. |
| KeyLifetime.RunKeepsInv | paramiko/packet.py:583-621 | The same over any run whose switches alternate outbound, inbound. |
| KeyLifetime.InboundKeyLifetime | paramiko/packet.py:583-621 | Fewer than 2^30 packets are accepted under one inbound key, and no sequence number repeats under it. |
| KeyLifetime.InboundKeyLifetimeAnyOrder | paramiko/packet.py:152-218 | With switches in any order, fewer than 2^29 packets are accepted under one inbound key, and no sequence number repeats under it. |
| KeyLifetime.OutboundKeyLifetime | paramiko/packet.py:470-484 | Over any run, with switches in either order: once 2^29 packets or bytes have gone out under one key a request for new keys is pending, from that send on until an inbound switch that no send has followed. |
| KeyLifetime.RequestWithdrawnIff | paramiko/packet.py:179-218 | A pending request goes away exactly at the second of the two switches; the transport never makes the outbound one second. |
| KeyLifetime.LateOutboundSwitch | paramiko/packet.py:152-218 | For the Packetizer alone, a run of switches inbound, then outbound, that withdraws a request with the worn key still in use. |
| KeyLifetime.NthIvCounts | paramiko/packet.py:403-412 | After n packets the vector's counter has grown by n and its fixed part is unchanged. |
| KeyLifetime.IvsDistinct | paramiko/packet.py:403-412 | RFC 5647 section 7.1: vectors after different numbers of packets differ. |
| KeyLifetime.SentIvsAreNth | paramiko/packet.py:444-453 | The vectors used to send under one key are these. |
| KeyLifetime.SentIvsDistinct | paramiko/packet.py:444-453 | So they are pairwise distinct. |
| KeyLifetime.OpenedIvsAreNth | paramiko/packet.py:512-530 | The vectors used to open packets under one key, whatever the peer sends, are these too. |
| KeyLifetime.OpenedIvsDistinct | paramiko/packet.py:512-530 | So no vector opens two packets under one key. |
| Packetizers.Packetizer.ReadAll | paramiko/packet.py:300-346 | Exactly the next n bytes however recv splits them; stopping for a rekey or at the end keeps every byte for the next call. |
| Packetizers.Packetizer.WriteAll | paramiko/packet.py:348-386 | All bytes in order, or a failure after some of them. |
| Packetizers.Packetizer.MakePadding | paramiko/packet.py:676-692 | Padding of the required length, zeros where no cipher or a counter mode is on. |
| Packetizers.Packetizer.SendMessage | paramiko/packet.py:414-486 | Writes the packet that the send function describes; both outbound counts grow by it; a request is pending afterwards iff it was or a count has reached 2^29; a new one zeroes the overflow counts, and nothing else changes. |
| Packetizers.Packetizer.SetOutboundCipher | paramiko/packet.py:152-184 | The new suite, zeroed counters, and the rekey request cleared once both directions have switched. |
| Packetizers.Packetizer.SetInboundCipher | paramiko/packet.py:186-218 | The same inbound, overflow counts included. |
| Packetizers.Packetizer.ResetSeqnoOut | paramiko/packet.py:140-141 | The outbound sequence number is zero. |
| Packetizers.Packetizer.ResetSeqnoIn | paramiko/packet.py:143-144 | The inbound sequence number is zero. |
| Packetizers.Packetizer.ReadPacket | paramiko/packet.py:488-560 | In each framing, the bytes of one packet, authenticated, or the failure; a rekey interruption loses none. |
| Packetizers.Packetizer.ReadMessage | paramiko/packet.py:488-635 | Reads what the parse function reads off the socket's bytes however they are split and brings the direction to its new state; length field, packet and MAC count towards 2^29, which makes a request, or with one pending towards the overflow, at which it fails. |
| Negotiation.ChoosesFirst | paramiko/transport.py:2412-2450 | The chosen name is the first of the client's list that stands in the server's. |
| Negotiation.ScanMarkers | paramiko/transport.py:2378-2399 | Popping the recorded indices removes exactly the markers, at any position; the strict flag follows the last kex-strict entry. |
| Negotiation.LastMarker | paramiko/transport.py:2398-2399 | Between one marker's index and the next there is no marker, so popping from the end is sound. |
| Negotiation.FirstOfFilter | paramiko/transport.py:2416-2431 | The head of the filtered list is the chosen name, and it is empty iff there is none. |
| Negotiation.Pick | paramiko/transport.py:2412-2432 | A server filters the client's list, a client its own; both take the client's first choice. |
| Negotiation.ParseKexInit | paramiko/transport.py:2342-2565 | For any lists received, in both roles: each direction's cipher, MAC and compression is the first by the client's order in the lists of that direction, local for what this end sends; IncompatiblePeer iff two lists have nothing in common; the strict flag of an earlier exchange stands unless the list has a kex-strict entry. |
| Negotiation.AdvertisedStrict | paramiko/transport.py:2292-2296 | The peer of a party that announces strict mode has it iff it wants it; the peer of one that does not keeps what it had. |
| Negotiation.AdvertisedExtInfo | paramiko/transport.py:2284-2295 | A client announces ext-info-c and a server does not. |
| Negotiation.AdvertisedKex | paramiko/transport.py:2257-2296 | The peer strips whatever markers were appended. |
| Negotiation.KexAgreement | paramiko/transport.py:2257-2269 | Both ends choose the same key exchange iff the client's choice is not a group exchange that the server announced without a modulus pack. |
| Negotiation.NegotiationIsSymmetric | paramiko/transport.py:2342-2565 | RFC 4253 section 7.1: under that condition both ends fail or both agree on key exchange, host key and each direction's algorithms; strict mode is on iff both want it, in every exchange. |
| Negotiation.AgreesWithAnyPeer | paramiko/transport.py:2246-2565 | RFC 4253 section 7.1 against any peer, whose lists may differ by direction: both ends fail or give each direction the same names, what is local to one being remote to the other; a server without a modulus pack differs in the key exchange iff a group exchange is chosen. |
| Negotiation.AgreementIsFirstChoice | paramiko/transport.py:2412-2565 | Between two ends of this code each agreed name is the first of the client's list that stands in the server's. |
| Negotiation.FooledServer | paramiko/transport.py:2257-2269 | The failing case, concretely. |
| KexInits.ReadsBackNormalised | paramiko/transport.py:2317-2334 | Any message of fields is consumed exactly, name lists with any names in them included, and get_so_far excludes what follows. |
| KexInits.KexInitRebuilt | paramiko/transport.py:2570-2574 | remote_kex_init is byte for byte the peer's local_kex_init, for any lists and any trailing junk. |
| KexInits.KexInitRead | paramiko/transport.py:2317-2334 | The lists read are the lists sent, an empty one as one empty name. |
| DiffieHellman.SharedSecret | paramiko/kex_group14.py:103-126 | (g^x mod p)^y mod p, (g^y mod p)^x mod p and g^xy mod p are the same number. |
| DiffieHellman.PublicValueInRange | paramiko/kex_group14.py:99-125 | With generator 2 and an odd modulus a public value is always in 1..p-1, so the range check never fails between honest peers. |
| DiffieHellman.GroupXInRange | paramiko/kex_group14.py:79-94 | Every draw that passes the eight-byte test gives 1 < x < (p-1)/2, for any prime of the fixed groups. |
| DiffieHellman.GroupAcceptsIff | paramiko/kex_group14.py:79-94 | A masked draw is refused iff its first eight bytes are all zero or 0x7F and seven times 0xFF. |
| DiffieHellman.GroupGenerateX | paramiko/kex_group14.py:79-94 | The first acceptable draw, so masked; no result iff none is acceptable. |
| DiffieHellman.TopMask | paramiko/kex_gex.py:108-114 | The mask is the smallest all-ones byte that covers q's top byte. |
| DiffieHellman.GexGenerateX | paramiko/kex_gex.py:105-121 | 1 < x < q, drawn with as many bytes as q has and the tight mask; there is a result iff some draw is acceptable. |
| DiffieHellman.EveryXReachable | paramiko/kex_gex.py:105-121 | No such x is shut out by the mask: it comes out of the draw that writes it. |
| DiffieHellman.ParametersAreUnique | paramiko/kex_gex.py:105-114 | Byte count and mask are determined by p. |
| DiffieHellman.TwoIsGood | paramiko/kex_gex.py:208-213 | With generator 2 and an odd modulus every public value passes the range check. |
| KeyDerivation.KeyIsPrefix | paramiko/transport.py:1882-1891 | However many blocks are hashed, their beginning of the given length is the same; KeyIffDigests says what the blocks are. |
| KeyDerivation.KeyIffDigests | paramiko/transport.py:1863-1891 | RFC 4253 section 7.2: a string is the key iff it is the beginning, of that length, of digests of which the first is over K, H, letter and session id and each later one over K, H and all the digests before it. |
| KeyDerivation.KeysAreNested | paramiko/transport.py:1882-1891 | A shorter key is a prefix of a longer one for the same letter. |
| KeyDerivation.LettersSeparate | paramiko/transport.py:1863-1869 | Different letters hash different inputs. |
| KeyDerivation.Transport.SetKH | paramiko/transport.py:1834-1841 | The session id is the first exchange hash and never changes after it. |
| KeyDerivation.Transport.ComputeKey | paramiko/transport.py:1863-1891 | The result is the beginning of such digests: HASH(K, H, letter, session id), then HASH(K, H, all digests so far) until there are enough bytes. |
| KeyDerivation.Transport.ActivateOutbound | paramiko/transport.py:2634-2713 | NEWKEYS, then keys by that rule for letters B, D, F on a server and A, C, E on a client; NEWKEYS is expected. |
| KeyDerivation.Transport.ParseNewkeys | paramiko/transport.py:2576-2746 | Inbound keys by that rule for the opposite letters, and K and the KEXINIT copies forgotten; an error without a K. |
| KexCommon.TranscriptInjective | paramiko/kex_group14.py:104-116 | Exchange hashes over the same bytes agree on every version string, KEXINIT, host key and number. |
| KexCommon.TranscriptLayout | paramiko/kex_group14.py:104-117 | RFC 4253 section 8: the hash is over both versions, both KEXINIT messages and the host key as strings, the client's first, then sizes and numbers. |
| KexCommon.GroupArrives | paramiko/kex_gex.py:154-190 | p and g arrive as sent. |
| KexCommon.ReplyArrives | paramiko/kex_group14.py:96-152 | Host key, f and signature arrive as sent. |
| KexCommon.ReplyLayout | paramiko/kex_group14.py:146-152 | A reply is host key, f and signature, each as a string behind its length. |
| KexCommon.Conclude | paramiko/kex_group14.py:104-117 | K, H and the session id become those of the transcript, whose first four fields are the client's and the server's whichever end this is, or an error where a field cannot be written. |
| KexCommon.SendReply | paramiko/kex_group14.py:143-154 | Reply, NEWKEYS and the outbound switch, in that order. |
| KexCommon.SwitchBoth | paramiko/transport.py:2741-2746 | After both NEWKEYS each transport holds its secret's keys for both directions. |
| KexGroup14.KexGroup.StartKex | paramiko/kex_group14.py:54-67 | Both roles: exponent in range, public value, first message, expected packet. |
| KexGroup14.KexGroup.ParseKexdhInit | paramiko/kex_group14.py:121-154 | Completes iff e is in range and hash and reply can be written; then secret, reply, NEWKEYS and keys are those of the transcript. |
| KexGroup14.KexGroup.ParseKexdhReply | paramiko/kex_group14.py:96-119 | Completes iff f is in range, the hash can be taken and the signature over it verifies; then the same. |
| KexGroup14.Deliver | paramiko/kex_group14.py:96-154 | With messages delivered, both sides complete exactly when the client accepts, and hold one secret. |
| KexGroup14.Exchange | paramiko/kex_group14.py:54-154 | A completed exchange leaves both sides with g^xy, one hash, one session id and each direction's keys on both ends; it completes for every draw when nothing is wrong with the inputs. |
| KexGroup14.Group14IsLarge | paramiko/kex_group14.py:42-43 | The RFC 3526 prime meets what the exchange asks of its group. |
| KexGroupExchange.ClampKeeps | paramiko/kex_gex.py:123-142 | The sizes settled on are always in order and in limits; they are the ones asked for iff those were. |
| KexGroupExchange.SettledIff | paramiko/kex_gex.py:123-142 | The sizes settled on are the ones for which the preferred one is nearest to that asked for of all within the limits, and the other two are as asked or give way to it. |
| KexGroupExchange.SizesAgreeIff | paramiko/kex_gex.py:123-169 | Both ends hash the same sizes iff the client's are ordered (new style) and its preferred one is within the server's limits. |
| KexGroupExchange.BitLengthMeans | paramiko/util.py:123-135 | The bit length of a positive number is the least exponent whose power of two is larger. |
| KexGroupExchange.RequestArrives | paramiko/kex_gex.py:75-126 | The three sizes arrive as sent. |
| KexGroupExchange.KexGex.StartKex | paramiko/kex_gex.py:67-87 | A server waits for either request; a client sends one. |
| KexGroupExchange.KexGex.ParseGexRequest | paramiko/kex_gex.py:123-159 | Of the sizes within the limits the one nearest to that asked for, the pack's group for it, and the group message; an error without a pack. |
| KexGroupExchange.KexGex.ParseGexRequestOld | paramiko/kex_gex.py:161-186 | The same for the old request, whose style is remembered. |
| KexGroupExchange.KexGex.ParseGexGroup | paramiko/kex_gex.py:188-206 | Raises iff p is not of 1024 to 8192 bits; completes iff it is, p is positive and a draw is acceptable, with x in range and e sent. |
| KexGroupExchange.KexGex.ParseGexInit | paramiko/kex_gex.py:208-249 | With e in range and an acceptable draw it completes iff hash and reply can be written, and not otherwise; then f, secret, reply and keys are those of the transcript. |
| KexGroupExchange.KexGex.AnswerInit | paramiko/kex_gex.py:216-249 | The second half succeeds iff hash and reply can be written; the hash is over versions and KEXINIT messages in the order client, server, host key, sizes (preferred alone after an old request), p, g, e, f and K. |
| KexGroupExchange.KexGex.ParseGexReply | paramiko/kex_gex.py:251-280 | Completes iff f is in range, the hash can be taken and the signature over it verifies. |
| KexGroupExchange.AgreeOnGroup | paramiko/kex_gex.py:67-206 | Succeeds iff the sizes fit, there is a pack, and the client takes its group and draws an exponent; then both ends have one group and the sizes each will hash. |
| KexGroupExchange.Exchange | paramiko/kex_gex.py:67-280 | A completed exchange leaves both ends with g^xy; when the sizes agree, also with one hash, session id and set of keys. When nothing stands in the way it completes iff both ends draw an exponent. |
| KexGroupExchange.Deliver | paramiko/kex_gex.py:208-280 | From the client's public value on, both ends complete iff the server draws, hashes can be taken and the client accepts the signature. |
| KexGroupExchange.SameBytesHashed | paramiko/kex_gex.py:216-278 | The two ends hash the same bytes iff the sizes agree. |
| KexStart.Open | paramiko/transport.py:2246-2334 | A KEXINIT each way, with any junk behind it, leaves both ends with the same context to hash. |
| KexStart.FixedGroup | paramiko/kex_group14.py:54-154 | From the KEXINIT messages to the new keys: one secret and hash over those very messages, and each direction's keys on both ends. |
| KexStart.Negotiated | paramiko/kex_gex.py:67-280 | The same for a group exchange, when the sizes agree. |
| Interlock.StepKeepsInv | paramiko/transport.py:1808-1832 | Every statement of every thread keeps the invariant of lock, event and exchange, as long as no exchange begins while one is outstanding. |
| Interlock.NoUserMessageDuringKex | paramiko/transport.py:1808-1832 | RFC 4253 section 7.1: over every interleaving of any number of threads, no user message goes out between our KEXINIT and the end of that exchange, if exchanges do not overlap. |
| Interlock.NothingIsDropped | paramiko/transport.py:1808-1832 | Over every interleaving a thread that enters and leaves has sent its one message, or has sent none because the connection was dead or the wait timed out. |
| Interlock.OverlapBreaks | paramiko/transport.py:2041-2043 | Where they do, some continuation sends a user message inside an exchange: the condition is needed. |
| Interlock.OverlapIsReachable | paramiko/transport.py:2696-2697 | The loop's own guard allows such a state. |
| StrictKex.Transport.HandlePacket | paramiko/transport.py:2041-2080 | One pass of read_message and the loop of run() is the modelled step. |
| StrictKex.Transport.EnforceStrictKex | paramiko/transport.py:1991-2003 | Ends the run iff strict mode is agreed and the first exchange is not done. |
| StrictKex.Transport.NegotiateKeys | paramiko/transport.py:2382-2410 | The strict flag, the check that a strict KEXINIT has sequence number 0, and the engine's first expectation. |
| StrictKex.Transport.HandleNewkeys | paramiko/transport.py:2741-2755 | Needs a K; ends the exchange; the sequence number becomes 0 in strict mode and stays otherwise. |
| StrictKex.PathIsPlan | paramiko/kex_gex.py:67-101 | A finished sequence of expected packets is one of the engine's plans. |
| StrictKex.StepUnderway | paramiko/transport.py:2041-2080 | Until the first exchange is done, what was received follows the engine's order, what is expected may come next, and sequence numbers count from zero. |
| StrictKex.StrictRunIsExactlyThePlan | paramiko/transport.py:1991-2080 | If the first exchange ends in strict mode, the inbound trace is exactly KEXINIT with number 0, the engine's packets and NEWKEYS, numbered in order, nothing before or between. |
| StrictKex.LaxRunFollowsThePlan | paramiko/transport.py:2041-2080 | Without strict mode that holds of the packets other than IGNORE and DEBUG. |
| StrictKex.NumberAfterNewkeys | paramiko/transport.py:2382-2402 | When the first exchange ends, strict mode is on iff this side advertises it and the KEXINIT received carries the right marker; the sequence number is then 0, and otherwise the number of packets received. |
| StrictKex.ZeroMeansFirst | paramiko/packet.py:583-590 | Thanks to the rollover check, sequence number 0 means the first packet until that exchange is done. |
| StrictKex.PlanIsAccepted | paramiko/transport.py:2041-2080 | Every plan is taken to its end in strict mode. |
| Auth.BlobIsUnambiguous | paramiko/auth_handler.py:187-198 | A session blob determines session, username, service, algorithm and key. |
| Auth.BlobLayout | paramiko/auth_handler.py:187-198 | RFC 4252 section 7: the signed blob is session id, byte 50, username, service, "publickey", true, algorithm and key, in that order. |
| Auth.AuthHandler.SendResult | paramiko/auth_handler.py:369-391 | Success, or a failure that says whether it was partial; only the others are counted; from ten on the disconnect follows and every channel is gone. |
| Auth.AuthHandler.ParseUserauthRequest | paramiko/auth_handler.py:406-526 | The handler is the modelled step, for every method. |
| Auth.AuthHandler.ParseUserauthInfoResponse | paramiko/auth_handler.py:594-610 | The same for interactive responses. |
| Auth.AuthHandler.ParseChannelOpen | paramiko/transport.py:1953-1989 | A channel open of an unauthenticated peer is refused before its handler. |
| Auth.AuthenticatedIff | paramiko/auth_handler.py:369-526 | authenticated is set by exactly the messages to which the callback answered AUTH_SUCCESSFUL under the right service and username (for a public key, with a readable key and a signature verified over the session blob with that key's own encoding; never for a password change), and never unset. |
| Auth.RejectedIff | paramiko/auth_handler.py:369-610 | One message gets a rejection, and only one, iff it is refused by the application, by the password change rule or by the signature check; it ends the connection iff it hangs up, asks for another service, changes the username, brings an unusable key, or earns the tenth rejection. |
| Auth.UsernameIsFixed | paramiko/auth_handler.py:430-439 | A username once set is the only one. |
| Auth.UsernameIsSettled | paramiko/auth_handler.py:410-440 | The username is set by the first request for the connection service, and by nothing else. |
| Auth.RunFixesUsername | paramiko/auth_handler.py:430-439 | The same over any run. |
| Auth.RunIsSafe | paramiko/auth_handler.py:369-610 | Over any run: authenticated iff one message admitted its sender; no channel and no success message without authentication; fewer than ten rejections, failures that are not partial, have been sent while active, never more than ten, and after the tenth comes the disconnect and nothing else. |
| Auth.EveryRejectionIsSent | paramiko/auth_handler.py:369-391 | Over any run the number of rejections sent is the number of messages that deserved one. |
| Auth.NoChannelBeforeAuth | paramiko/transport.py:2075-2080 | Channel requests before authentication are refused and leave no channel. |
| Auth.OnlyForAuthenticated | paramiko/transport.py:1953-1988 | A channel is opened iff its sender is authenticated and the application grants it; a global request reaches the application iff its sender is authenticated; each gets the matching answer and nothing else changes. |
| Auth.UnaskedInfoResponse | paramiko/auth_handler.py:594-610 | A response nobody asked for reaches the callback and can authenticate without a username. |
| ChannelIds.FirstFree | paramiko/transport.py:1792-1799 | The first free id at or cyclically after the counter. |
| ChannelIds.Allocator.NextChannel | paramiko/transport.py:1792-1799 | The loop ends whenever some id is free, returns the first such from the counter on, and moves the counter past it. |
| ChannelIds.Allocator.OpenChannel | paramiko/transport.py:1017-1043 | Allocation and put never replace a live channel. |
| ChannelIds.Allocator.UnlinkChannel | paramiko/transport.py:1801-1803 | Frees that id only. |
| ChannelIds.RoomLeft | paramiko/transport.py:1792-1799 | Fewer than 2^24 live channels leave an id free. |
| ChannelIds.TwoAllocations | paramiko/transport.py:1792-1799 | Two allocations without a put between them clash iff there was only one free id. |
| SftpAttributes.FlagBits | paramiko/sftp_attr.py:114-126 | Each flag bit says whether its field, or its pair of fields, is present. |
| SftpAttributes.BlockLayout | paramiko/sftp_attr.py:114-143 | The block is the flags, then the fields they announce: size, owner and group, mode, the two times, and the count and strings of the extended pairs. |
| SftpAttributes.PairsAt | paramiko/sftp_attr.py:109-112 | Packed pairs read back swapped, one dict assignment after another. |
| SftpAttributes.SwappedMeans | paramiko/sftp_attr.py:109-143 | The dict that comes back: keys and values have changed places, and of pairs with one value the last is left. |
| SftpAttributes.SameDictIff | paramiko/sftp_attr.py:109-143 | The dict comes back as it was iff every pair is there both ways round. |
| SftpAttributes.OnePairComesBackSwapped | paramiko/sftp_attr.py:112 | The failing case: any single pair of different strings. |
| SftpAttributes.RoundTrip | paramiko/sftp_attr.py:97-143 | Unpacking a packed block gives the numbers with incomplete owner and time pairs dropped, for every combination, and the extended pairs swapped; it stops at the block's end. |
| SftpAttributes.SFTPAttributes.UnpackFrom | paramiko/sftp_attr.py:97-112 | _unpack into a new object reads what the unpack function reads, value before key. |
| SftpAttributes.SFTPAttributes.Pack | paramiko/sftp_attr.py:114-143 | _pack appends flags and fields, or fails iff a number does not fit. |
| SftpDirectories.HandleInjective | paramiko/sftp_server.py:246-247 | Different handle numbers give different names. |
| SftpDirectories.VisibleMeans | paramiko/sftp_client.py:248-258 | Every entry not named by one dot or two is in the listing as often as it came; those two are not. |
| SftpDirectories.EntryLayout | paramiko/sftp_server.py:276-287 | An entry is written as filename, long name and attributes. |
| SftpDirectories.BatchArrives | paramiko/sftp_server.py:280-287 | A batch of entries, written and read, is those entries with their attributes as they arrive. |
| SftpDirectories.ArriveAsSentIff | paramiko/sftp_client.py:252-258 | Entries arrive as the server has them, incomplete pairs apart, iff each extended pair is there both ways round. |
| SftpDirectories.SFTPServer.SendHandleResponse | paramiko/sftp_server.py:241-252 | The handle is new among files and folders. |
| SftpDirectories.SFTPServer.OpenFolder | paramiko/sftp_server.py:264-273 | A fresh handle with the whole listing, or the application's error. |
| SftpDirectories.SFTPServer.ReadFolder | paramiko/sftp_server.py:275-287 | The next 16 entries at most and the rest kept; EOF when there are none. |
| SftpDirectories.SFTPServer.CloseHandle | paramiko/sftp_server.py:386-399 | Drops that handle only. |
| SftpDirectories.ParseNames | paramiko/sftp_client.py:252-258 | The entries of one response, read with value before key, without the dots. |
| SftpDirectories.ListdirAttr | paramiko/sftp_client.py:237-260 | Ends, and returns every entry of the folder once and in order except the dots, with attributes as they arrive; the server's tables are as before. |

## Left out

- Sockets, selects, timers, the handshake and keepalive timers, timeouts of blocking calls, logging, hexdump, ProxyCommand, agents and Windows APIs are I/O.
- AES, HMAC, SHA, signatures, elliptic curves and zlib are functions with the laws stated; that a hash has no collisions or a signature cannot be forged is assumed nowhere.
- Key files, known hosts, moduli and configuration parsing, `SSHClient`, GSSAPI and certificates would add only easy members.
- UTF-8 decoding: text fields and lines are byte strings.
- Packetizers.Packetizer.ReadMessage: a negative remaining length is read as nothing, as a slice would be.
- BufferedFiles.BufferedFile.Readline: the `newlines` attribute that records which newlines were seen is not kept.
- Channels.Channel.Reserve: the waiting loop for a window is the result Wait, after which the caller tries again; `sendall` after the write half is shut down, which never ends, is not modelled.
- SftpFiles.SftpFile.Prefetch: the size is at most that of the file; prefetching past the end is not promised to work. Mixing reads and pipelined writes on one file is not modelled.
- SftpFiles.SftpFile.ThreadSends: sending a request and recording its extent are one step, because a response is not looked at in between without the lock.
- SftpFiles.SftpFile.Readv: blocks lie inside the file.
- SftpFiles.SftpFile.Read: reading to the end of an SFTP file with a negative size is shown for the buffered file only.
- KexGroupExchange.KexGex.ParseGexInit: requires that a group has been chosen; the expected-packet rule, modelled in StrictKex, is what ensures it.
- KexGroupExchange.KexGex.ParseGexGroup: a negative p of 1024 to 8192 bits leaves the draw without an acceptable value, which the outcome Drawing stands for.
- KexGroup14.Exchange: the dispatch of packet types to handlers and the elliptic-curve exchanges are not part of the model; an adversary who changes messages is covered only as far as KexCommon.TranscriptInjective goes.
- KeyDerivation.Transport.ActivateOutbound: compression and the EXT_INFO message that may follow are not modelled.
- Interlock.NoUserMessageDuringKex: `renegotiate_keys`, which starts an exchange from a user thread, is not modelled; other messages of the transport thread are not held back by the event and are logged as Direct.
- StrictKex.Transport.HandlePacket: handlers are reduced to whether they return; the order of messages we send is modelled in Interlock.
- Auth.AuthHandler.ParseUserauthRequest: the client side, GSSAPI and the content of failure messages are not modelled.
- Auth.AuthHandler.ParseChannelOpen: the agent, X11 and forwarding handlers of a client are not modelled.
- SftpAttributes.SFTPAttributes.Pack: times are integers; fractions of a second are dropped by the code.
- SftpDirectories.ListdirAttr: request numbers and responses of other requests are left to the read-ahead model; `listdir_iter` is not modelled.
- The check-file hashing loop, file transfer callbacks, port forwarding and x11 are not modelled.
