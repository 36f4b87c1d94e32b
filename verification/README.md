# TCP handshake and teardown simulation — verified model

Two C programs simulate TCP's three-way handshake and four-way teardown over
an already connected stream socket. The client sends SYN, the server
answers SYN-ACK, and the client ACKs. Then the client sends FIN, the server
answers ACK and FIN, and the client sends a closing ACK. Each segment is a
`tcp_hdr` record (header.h). Each endpoint mutates the record it last read
into the next one it sends. A 16-bit value computed by `ComputeChecksum`
guards each step, together with the `hdr_flags` field.

This project models that protocol logic in Dafny:

- `words.dfy` (`Words`): 16- and 32-bit unsigned values, their halves, the
  wrapping `x + 1` the builders store into `seq`/`ack`, and the 16-bit `^`.
- `header.dfy` (`Header`): the `Segment` record with its field widths and
  order, the flag constants, and the 24-byte prefix as twelve 16-bit words
  in either byte order.
- `checksum.dfy` (`Checksum`): `ComputeChecksum` defined from field values,
  plus a step-by-step method that follows the C loop and folds.
- `client.dfy` (`Client`): `syn`, `ack`, `cli_fin`, `cli_fin_ack`, and the
  client's `main` as a function from segments read to segments written.
- `server.dfy` (`Server`): `syn_ack`, `ack`, `svr_fin`, and the server's
  per-connection logic, modelled the same way.
- `exchange.dfy` (`Exchange`): the two programs connected to each other.

Builders are pure functions `Segment -> Segment`, with each `rand()` result
passed in as a parameter (`Client.Draws`, `Server.Draws`). A run reads its
input segments in order. A read with no segment left blocks for good, so
nothing after it is written. Reading more therefore never retracts a write
(`RunMonotone`). The connected exchange is the least transcript both
endpoints agree with. It is reached by letting each side answer what the
other has written so far, over and over; it settles within eight rounds.

Where the code's own comments promise more than the code does, the model
follows the code:

- `ComputeChecksum` is commented "XOR the sum for the checksum"
  (client.c:165), but it returns `0xFFFF ^ cksum`, where `cksum` holds the
  carry of the second fold, not the folded sum. Every checksum is therefore
  0xFFFF or 0xFFFE (client.c:157-166).
- `syn_ack` and the client's `ack` comment their new checksum "should be the
  same" (server.c:195, client.c:216). But `syn`, `syn_ack` and the server's
  `ack` take the checksum before (or in the middle of) their field updates,
  so the stored checksum can differ from that of the segment sent. The
  uninitialised record and the draws are enough for this; every draw used
  lies in 0..32767, a range any `rand()` can return
  (`Client.SynChecksumCanBeStale`, `Server.AckChecksumCanBeStale`).
- The variable commented "track initial server sequence number"
  (client.c:68) is copied from the client's own SYN before anything is
  read, and `ack` uses it as the "initial server sequence number"
  (client.c:214). The handshake ACK therefore carries the client's initial
  sequence number plus one as both `seq` and `ack`.
- The second and fourth reads of the server only print; they never decide
  a write. The client's second read decides no write either, but its `seq`
  is kept and becomes the closing ACK's `ack` (client.c:116, 133).
- The full seven-segment exchange (flags 0x02, 0x12, 0x10, 0x01, 0x10, 0x01,
  0x10) happens exactly when two checksum comparisons on the client side
  happen to succeed (`Exchange.CompleteIff`). Both outcomes of each
  comparison occur with in-range draws, depending only on what the
  uninitialised record holds (`Exchange.HandshakeCanGoEitherWay`,
  `Exchange.TeardownCanGoEitherWay`). The teardown examples give both
  programs the same draws, as an unseeded `rand()` in each does.

## Model

| member | source | states |
|---|---|---|
| `Words.Inc32` | client.c:213-214 | `x + 1` stored into an unsigned 32-bit field is `x + 1`, except that the largest value wraps to 0; never equal to `x` |
| `Words.XorAllOnesBit` | client.c:166 | XOR with 0xFFFF maps a carry of 0 to 0xFFFF and 1 to 0xFFFE |
| `Header.PrefixRoundTrip` | header.h:23-31 | the 24-byte prefix holds exactly `src`, `dest`, `seq`, `ack`, `headLength`, `reserved`, `hdr_flags`, `rec`: rebuilding a record from its twelve prefix words gives it back, in either byte order |
| `Header.WordsRoundTrip` | header.h:23-31 | any twelve words are the prefix of some record, so nothing in the prefix is padding |
| `Checksum.PrefixSumIsFieldSum` | client.c:151-155 | the sum of the twelve prefix words equals the 16-bit fields plus the low and high halves of each 32-bit field, for either byte order |
| `Checksum.FoldTwiceFits` | client.c:153-163 | twelve words give a first carry of at most 11 and a second of at most 1; after two folds the sum fits in 16 bits and keeps its value modulo 0xFFFF (a folded sum the code computes and then discards) |
| `Checksum.ComputeChecksum` | client.c:146-167 | the checksum is always 0xFFFF or 0xFFFE |
| `Checksum.ChecksumIsSecondCarry` | client.c:157-166 | the checksum is 0xFFFE exactly when the once-folded sum still overflows 16 bits, else 0xFFFF |
| `Checksum.SmallSumChecksum` | client.c:153-166 | a prefix summing below 2^16 always gets 0xFFFF |
| `Checksum.ChecksumDependsOnPrefix` | client.c:151 | two records with the same 24-byte prefix have the same checksum |
| `Checksum.ChecksumIgnoresTail` | header.h:32-34 | changing `cksum`, `ptr` or `opt` never changes the checksum |
| `Checksum.SumWords` | client.c:153-155 | the summing loop adds the twelve words in a wrapping 32-bit accumulator that never wraps, yielding their exact sum |
| `Checksum.ChecksumOfWords` | server.c:145-166 | the C function step by step (copy, sum, two folds, XOR) computes the same value as the field-level definition on either byte order; the caller's record cannot change, since `Segment` is a value |
| `Client.Syn` | client.c:174-188 | ports 4040, `seq` = the draw, `ack` 0, flags 0x02, `rec`/`ptr`/`opt` 0, `headLength`/`reserved` unchanged, `cksum` = checksum of the record before the update |
| `Client.Ack` | client.c:211-217 | `seq` = clientSeq+1, `ack` = serverSeq+1 (wrapping), flags 0x10, nothing else but `cksum` changes, and the result carries its own checksum |
| `Client.CliFin` | client.c:223-229 | `seq` = the draw, `ack` 0, flags 0x01, nothing else but `cksum` changes, and the result carries its own checksum |
| `Client.CliFinAck` | client.c:235-241 | the same assignments as the handshake ACK, result carries its own checksum |
| `Client.Run` | client.c:58-78 | the SYN built in the initial record is always the first segment written, and until the first read it is the only one; no run writes more than four segments |
| `Client.HandshakeAckIff` | client.c:66-91 | the handshake ACK is written iff (the test `AcceptsSynAck`) the first segment read has flags 0x12 and the SYN's `cksum`; it then has `seq` = `ack` = initial sequence number + 1 and a valid checksum |
| `Client.FinAlwaysSent` | client.c:97-102 | after the first read the FIN is always written, with the second draw as `seq`, `ack` 0 and a valid checksum, so `newChecksum` equals the FIN's `cksum` |
| `Client.ClosingAckIff` | client.c:104-135 | the closing ACK is written iff (the test `AcceptsFin`) the third segment read has flags 0x01 and the FIN's checksum; its `ack` is the second segment's `seq` + 1 and its `seq` the FIN's + 1 |
| `Client.NoClosingAckBeforeThirdRead` | client.c:102-122 | before the third read the client has written only SYN, optional ACK and FIN |
| `Client.RunMonotone` | client.c:74-122 | more input never retracts a write |
| `Client.SynChecksumCanBeStale` | client.c:176-185 | a SYN built from an uninitialised record with draw 1 whose stored checksum (0xFFFF) differs from its own (0xFFFE) |
| `Server.SynAck` | server.c:188-196 | `cksum` = checksum of the record as received, then `seq` = the draw, `ack` = clientSeq+1, flags 0x12; nothing else changes |
| `Server.Ack` | server.c:202-208 | `seq` = serverSeq (no increment), `ack` = clientSeq+1, flags 0x10; `cksum` is the checksum of the result with its previous flags |
| `Server.SvrFin` | server.c:214-220 | `seq` = serverSeq, `ack` = clientSeq+1, flags 0x01, nothing else but `cksum` changes, and the result carries its own checksum |
| `Server.Run` | server.c:69-70 | the server writes nothing before its first read, and at most three segments in all |
| `Server.SynAckIff` | server.c:70-88 | the checksum test is always true, so the SYN-ACK is written iff the first segment's flags are 0x02; it acknowledges that segment's `seq` + 1 |
| `Server.TeardownIff` | server.c:103-125 | ACK then FIN are written, together and in that order, iff the third segment carries its own checksum and flags 0x01; both have `seq` = the server's draw and `ack` = the FIN's `seq` + 1 |
| `Server.IgnoredReads` | server.c:90-133 | the second and fourth reads never affect what is written |
| `Server.AckThenFin` | server.c:118-124 | `svr_fin` right after `ack` keeps `seq` and `ack` and changes only flags and checksum |
| `Server.RunMonotone` | server.c:69-133 | more input never retracts a write |
| `Server.AckChecksumCanBeStale` | server.c:202-208 | with draw 0, an ACK whose stored checksum, taken before the flags change, differs from its own |
| `Exchange.Settle` | client.c:70-134 | the connected exchange: a transcript both runs agree with, client at most 4 and server at most 3 segments |
| `Exchange.SettleIsLeast` | server.c:69-133 | every transcript both runs agree with extends the settled one |
| `Exchange.FullExchange` | client.c:58-135 | when both client checks pass, the client writes flags 0x02, 0x10, 0x01, 0x10 and the server 0x12, 0x10, 0x01, with the stated `seq`/`ack` values |
| `Exchange.HandshakeStalls` | client.c:81-102 | when the SYN-ACK check fails, only client SYN, server SYN-ACK and client FIN are written |
| `Exchange.ClosingAckWithheld` | client.c:124-135 | when only the FIN check fails, six segments are written and no closing ACK |
| `Exchange.CompleteIff` | client.c:81-135 | the closing ACK is written iff both client-side checksum comparisons succeed |
| `Exchange.ServerAcceptsClientFin` | server.c:105-124 | a FIN built by `cli_fin` and delivered unchanged always passes the server's FIN check |
| `Exchange.HandshakeCanGoEitherWay` | client.c:81 | from one uninitialised record, draws 0 and 1 for which the handshake check succeeds and fails |
| `Exchange.TeardownCanGoEitherWay` | client.c:125 | with every draw 0 on both sides, two uninitialised records whose handshakes are both accepted, one leading to a FIN the client accepts and the other to one it refuses |

## Left out

- Socket creation, `bind`/`listen`/`accept`/`connect`/`close`, argument
  parsing and exit codes (client.c:24-56, server.c:20-67): operating-system
  I/O outside the protocol logic.
- The return values of `read` and `write`, which the code ignores. The
  transport delivers whole segments in order. A read with nothing to read
  blocks. A peer closing early would make `read` return 0 and leave the
  record unchanged; in the connected exchange this can only happen at reads
  after which nothing is written.
- `PrintStruct`: display only.
- `rand()`: each call is a parameter and may be any 32-bit value. This
  covers every value `rand()` can return (0..RAND_MAX); the concrete
  examples use only draws in 0..32767, which every `rand()` covers.
- `Exchange.TeardownCanGoEitherWay`, like `Exchange.Settle` and the other
  exchange lemmas, takes the client's and the server's draws as independent
  parameters. Neither program calls `srand`, so with one C library both draw
  the same sequence in the same call order and their draws agree; the model
  does not require this, and the teardown examples satisfy it.
- The uninitialised record the client's `syn` starts from: it is an
  arbitrary input segment.
- Conversions of `unsigned int` to `int` and the signed `+ 1` in the
  builders (undefined at `INT_MAX`): all sequence arithmetic is modelled as
  wrapping 32-bit unsigned, which is what the stored field ends up holding.
- The XOR in `ComputeChecksum` is taken on 32-bit operands in C. The model
  takes it on 16 bits. This is exact because the XORed carry is proved to
  be at most 1.
- The byte-level `memcpy` of the record: the prefix is modelled as twelve
  16-bit words, and each 32-bit field's halves are placed according to the
  byte order.
- The unused `BUFFER_*` and `*_BUF` macros (header.h:12-18).
- The server's accept loop serves one connection and then ends (server.c:56-137).
  The model covers that one connection.
