# lets-talk: the sequential core, in Dafny

`lets-talk` is a peer-to-peer terminal chat program in a single C file. Two running copies
exchange UDP datagrams. Each copy runs four threads: a keyboard reader, a sender, a
receiver and a printer. They share two queues, a presence text (`statusString`) and a
cancellation signal. This project models the logic that runs one step at a time:

- `cstrings.dfy` (module `CStrings`): C strings as byte buffers.
  - A `char` is taken as an unsigned byte, 0..255.
  - `strlen` is the index of the first NUL. `Text` is a NUL-free byte sequence.
  - `strncmp(s, lit, |lit|) == 0` is `StartsWith(s, lit)`.
- `cipher.dfy` (module `Cipher`): `encryptString` and `decryptString`.
  - They add or subtract `ENCRYPTION_KEY` (5), modulo 256, to each byte, in place on an
    array.
  - The loop bound `strlen` is evaluated again on every pass. So a byte that the shift
    turns into NUL (0xFB under encryption) ends the text, and the bytes after it are
    never shifted.
  - `Shifted` is the specification function. The methods are proved against it. The
    round trip is proved about it.
- `address.dfy` (module `Address`): `isValidLPAddress` and `allCharAreDigits`, and the
  `localhost` rewrite in `main`.
  - `strtok` is modelled as a function. Leading delimiters are skipped, so empty fields
    collapse.
  - The first call splits on `".\n"`, the later ones on `"."`.
  - The validator loop is proved to accept exactly when the tokens are four groups of one
    to three digits. Octet values are never compared with 255.
- `chat.dfy` (module `Chat`): the shared state as a class `Session`.
  - `outbound` is `inputList`, `inbound` is `outputList`, `status` is `statusString`, and
    `cancelled` is the cancellation signal.
  - What the printer writes is recorded in `screen`; what the sender puts on the wire is
    recorded in `wire`.
  - There is one method per worker-loop body: `KeyboardStep`, `ReceiveStep`, `PrintStep`
    and `SendStep`/`EndProbeRound`. `SendAll` is the sender's drain loop.
  - Both queues are FIFO: `List_add` appends, `List_remove` takes the head.
  - The presence is `"Offline\n"` or `"Online\n"`. Only an acknowledgement makes it
    Online. The end of a probe round makes it Offline again.
  - A few methods run two sessions against each other: a delivered line, a probe that is
    answered, one that is not, and a remote `!exit`.

Four behaviours of the code shape the model:

- The transform loses the text from the first 0xFB byte on, because that byte encrypts to
  NUL and the next `strlen` ends the loop (lets-talk.c:449-460; `Cipher.TextRoundTripIff`,
  `Chat.WireRoundTripIff`).
- The keyboard, the receiver, the printer and the sender match control words by prefix
  with `strncmp` (lets-talk.c:179, 214, 276, 283, 330, 382). So any line that begins with
  `!exit` cancels, and any line that begins with `!status` is a probe.
- A typed `!status` line is queued and sent like any other line (lets-talk.c:176,
  371-382). The sender then runs a probe round. The printer shows the presence only once
  the reply arrives (`Chat.ProbeAnswered`); see "Findings" for an unanswered probe.
- The presence text carries a newline: `"Offline\n"` (lets-talk.c:96) or `"Online\n"`
  (lets-talk.c:287).

## Model

| member | source | states |
|---|---|---|
| CStrings.StrLen | lets-talk.c:437 | `strlen` is the index of the first NUL: every byte before it is non-NUL, and the byte at it is NUL unless the buffer ends first |
| CStrings.Contents | lets-talk.c:215-218 | the text `printf("%s")` and `strncmp` see is the buffer up to, not including, its first NUL |
| CStrings.StartsWith | lets-talk.c:179 | `strncmp(s, lit, n) == 0` with n the length of lit holds iff s has at least n bytes and agrees with lit on each of them |
| CStrings.IsDigit | lets-talk.c:439 | `isdigit` holds only for non-NUL ASCII bytes (it is exactly '0'..'9') |
| CStrings.ContentsOfPrefix | lets-talk.c:273-274 | bytes after a NUL do not change a buffer's text, so stale bytes behind the terminator are invisible |
| Cipher.Shifted | lets-talk.c:449-460 | the shifting loop keeps the buffer length; each byte of the resulting text is the input byte plus d mod 256; the text never grows; bytes after the original NUL are untouched |
| Cipher.Shift | lets-talk.c:451 | `string[i] += d` on an unsigned char: the byte plus d, modulo 256 |
| Cipher.Encrypt | lets-talk.c:449-453 | the encrypted buffer has the same length; its text is no longer than the input's, each of its bytes is the input byte plus 5 mod 256, and bytes from the NUL on are untouched |
| Cipher.Decrypt | lets-talk.c:456-460 | the decrypted buffer has the same length; its text is no longer than the input's, each of its bytes is the input byte minus 5 mod 256, and bytes from the NUL on are untouched |
| Cipher.PrefixIndependent | lets-talk.c:273 | what the shifting loop leaves in the first n bytes does not depend on the bytes after them |
| Cipher.PrefixStopped | lets-talk.c:449-460 | a first byte that is or becomes NUL ends the loop, leaving the rest of the prefix as it was |
| Cipher.PrefixShifted | lets-talk.c:449-460 | a first byte that stays non-NUL is shifted and the loop continues on the rest |
| Cipher.FirstFB | lets-talk.c:449-460 | a text containing 0xFB has a first such byte, where the encryption loop stops |
| Cipher.StopsAtShifted | lets-talk.c:449-460 | when the loop exits at index m, the result is the buffer with exactly its first m bytes shifted |
| Cipher.ShiftString | lets-talk.c:449-460 | the in-place loop with `strlen` re-evaluated each pass leaves the array equal to `Shifted` of its old contents |
| Cipher.EncryptString | lets-talk.c:449-453 | `encryptString` leaves the array equal to `Encrypt` (shift by +5) of its old contents |
| Cipher.DecryptString | lets-talk.c:456-460 | `decryptString` leaves the array equal to `Decrypt` (shift by -5) of its old contents |
| Cipher.ShiftedTerminated | lets-talk.c:449-460 | bytes after the terminating NUL are never touched by a shift |
| Cipher.ShiftToNul | lets-talk.c:451 | a byte becomes NUL under encryption iff it is 0xFB, and under decryption iff it is 0x05 |
| Cipher.ShiftInverse | lets-talk.c:451 | shifting by d and then by -d gives the byte back |
| Cipher.ShiftRoundTrip | lets-talk.c:449-460 | if no byte of the text becomes NUL under a shift by d, the shift keeps the text length and a shift by -d restores the whole buffer |
| Cipher.DecryptUndoesEncrypt | lets-talk.c:449-460 | for a text without 0xFB, decrypt after encrypt is the identity and encryption keeps the length |
| Cipher.EncryptUndoesDecrypt | lets-talk.c:449-460 | for a text without 0x05, encrypt after decrypt is the identity and decryption keeps the length |
| Cipher.EncryptTruncates | lets-talk.c:449-460 | with the first 0xFB at j, the encrypted text has length j, and decryption restores the bytes before j, leaves NUL at j and the tail unchanged |
| Cipher.DecryptTruncated | lets-talk.c:456-460 | decryption of a buffer truncated at j stops at that NUL and restores the bytes before it |
| Cipher.EncryptUpTo | lets-talk.c:449-453 | with the first 0xFB at j, encryption shifts exactly the bytes before j and turns j into NUL |
| Cipher.TextRoundTripIff | lets-talk.c:449-460 | the text survives encrypt then decrypt if and only if it has no 0xFB byte |
| Address.Span | lets-talk.c:413 | the leading run of bytes in (or not in) the delimiter set, as `strtok` scans it |
| Address.Strtok | lets-talk.c:413 | a `strtok` call returns NULL iff only delimiters remain; otherwise a non-empty token free of delimiters, and a shorter rest |
| Address.Fields | lets-talk.c:427 | the tokens of repeated `strtok(NULL, ".")` calls: none iff only dots remain, and each token is non-empty and dot-free |
| Address.AddressTokens | lets-talk.c:413-427 | the tokens the validator visits: none iff the text holds only dots and newlines; the first token has neither, the later ones no dot |
| Address.ValidAddress | lets-talk.c:432 | what the validator accepts: exactly four tokens, each a group of one to three digits |
| Address.AllCharAreDigits | lets-talk.c:436-445 | returns true iff every byte is in '0'..'9'; so true on the empty text |
| Address.IsValidLPAddress | lets-talk.c:411-433 | the `strtok` loop returns true iff the address splits into exactly four tokens, each of one to three digits |
| Address.BadTokenInvalid | lets-talk.c:419-425 | a token that is not a group makes the address invalid wherever it stands, which justifies the early `return false` |
| Address.RemoteHost | lets-talk.c:53-62 | a host is accepted iff it is "localhost" or passes the validator, and the accepted host always passes the validator |
| Address.StrtokOf | lets-talk.c:413 | delimiters, a field and a delimiter-or-end give that field as the token and resume after the delimiter |
| Address.FieldsOf | lets-talk.c:427 | the same for the later `strtok(NULL, ".")` calls |
| Address.FieldsOfDotted | lets-talk.c:427 | text made of dot runs and fields tokenises to exactly those fields, whatever the run lengths |
| Address.AddressTokensOfDotted | lets-talk.c:413-427 | a first field followed by dot runs and fields tokenises to the first field and then those fields |
| Address.DottedValidIff | lets-talk.c:411-433 | such a text is accepted iff it has exactly four fields, each of one to three digits; repeated dots make no difference |
| Address.FourWordsValidIff | lets-talk.c:411-433 | "a.b.c.d" for delimiter-free words is accepted iff every word is one to three digits |
| Address.NewlineValidIff | lets-talk.c:413 | a newline right after the first group acts as a dot, since only the first call splits on "\n" |
| Address.FiveWordsRejected | lets-talk.c:432 | five dot-separated words give five tokens and are rejected |
| Address.FourGroupWordsValid | lets-talk.c:411-433 | any four dot-joined groups of one to three digits are accepted, whatever their values |
| Address.LastWordNotGroup | lets-talk.c:419-425 | a fourth word longer than three bytes or with a non-digit is rejected |
| Address.LoopbackIsValid | lets-talk.c:54 | "127.0.0.1", which "localhost" is rewritten to, passes the validator |
| Address.UsageExampleAccepted | lets-talk.c:59 | the usage example "192.168.0.513" is accepted, although 513 is no octet |
| Address.RepeatedDotsAccepted | lets-talk.c:411-433 | "1..2.3.4" is accepted: the empty field collapses |
| Address.FiveGroupsRejected | lets-talk.c:432 | "1.2.3.4.5" is rejected |
| Address.LetterGroupRejected | lets-talk.c:419-421 | "1.2.3.a" is rejected |
| Address.LongGroupRejected | lets-talk.c:423-425 | "1.2.3.1234" is rejected |
| Address.NewlineAfterFirstGroupAccepted | lets-talk.c:413 | "1\n2.3.4" is accepted |
| Address.TrailingNewlineRejected | lets-talk.c:427 | "1.2.3.4\n" is rejected: later calls do not split on "\n", so the last token "4\n" is no group |
| Chat.WirePayload | lets-talk.c:375-379 | the payload `sendto` transmits is never longer than the message |
| Chat.Decoded | lets-talk.c:273-274 | the text the receiver makes of a payload is never longer than the payload |
| Chat.AfterSend | lets-talk.c:381 | the text the sender tests after decrypting its buffer again is never longer than the message |
| Chat.PresenceAfter | lets-talk.c:382-398 | the presence after a drain is the presence before it or "Offline\n" |
| Chat.Payloads | lets-talk.c:375-379 | the wire gets one payload per message drained |
| Chat.StaleBytesIgnored | lets-talk.c:273-274 | decrypting a payload followed by the leftover bytes of an earlier datagram, then terminating it at the payload's end, gives the same text as the payload alone |
| Chat.Arrived | lets-talk.c:267-274 | a reception yields a text exactly when it is a datagram with a positive byte count |
| Chat.ReadDatagram | lets-talk.c:272-274 | the receiver's buffer holds the decryption of the payload, cut at its first NUL |
| Chat.Transmit | lets-talk.c:375-381 | the sender transmits the text of the encrypted buffer and then holds the text of the buffer decrypted again |
| Chat.Session.constructor | lets-talk.c:94-99 | both queues start empty, presence starts "Offline\n", no cancellation |
| Chat.Session.KeyboardStep | lets-talk.c:176-181 | the line is appended to the outbound queue; cancellation is set iff it starts with "!exit"; nothing else changes |
| Chat.Session.ReceiveStep | lets-talk.c:272-306 | a probe appends "!acknowledgement" to outbound; an acknowledgement sets "Online\n" and appends "!status\n" to inbound; other text is appended to inbound verbatim; a non-positive count appends "!status"; only plain text starting with "!exit" cancels |
| Chat.Session.Classify | lets-talk.c:276-295 | a probe queues "!acknowledgement" on outbound; an acknowledgement sets "Online\n" and queues "!status\n" for the printer; other text is queued verbatim; the buffer left behind starts with "!exit" iff the text did |
| Chat.Session.PrintStep | lets-talk.c:210-222 | the head of inbound is removed and printed, except that a "!status" message prints the presence text; an empty queue prints nothing |
| Chat.Session.SendStep | lets-talk.c:372-382 | the head of outbound is removed and its payload appended to the wire; the probe test on the re-decrypted buffer holds iff the typed message starts with "!status" |
| Chat.Session.EndProbeRound | lets-talk.c:386-398 | the presence is "Offline\n" after a probe round, whether or not an acknowledgement came |
| Chat.Session.SendNext | lets-talk.c:372-398 | one pass of the drain loop extends the wire and the presence exactly as the next message of the queue dictates |
| Chat.Session.SendAll | lets-talk.c:371-399 | outbound is drained in FIFO order, the wire gets one payload per message in order, and the presence is that after the messages, with nothing else changed |
| Chat.ReceiverSeesWhatSenderTests | lets-talk.c:273-382 | the receiver decodes a payload to exactly the text the sender tests after decrypting its own buffer |
| Chat.WireRoundTripIff | lets-talk.c:375-381 | a message arrives as typed iff it has no 0xFB byte, and iff the sender's re-decrypted buffer equals it |
| Chat.ProbeTestIff | lets-talk.c:381-382 | the sender's probe test holds iff the typed message starts with "!status" |
| Chat.PrefixStartsWith | lets-talk.c:382 | cutting a message at a 0xFB byte keeps whether it starts with "!status" |
| Chat.WireTruncates | lets-talk.c:375-381 | with the first 0xFB at j, the peer receives only the bytes before j |
| Chat.AfterSendTruncates | lets-talk.c:375-381 | with the first 0xFB at j, the sender's buffer decrypted again holds only the bytes before j |
| Chat.AsciiArrivesIntact | lets-talk.c:375-381 | an ASCII message always arrives unchanged |
| Chat.ControlTextsClassify | lets-talk.c:276-290 | "!status\n" is a probe, "!acknowledgement" is an acknowledgement and no probe, "!exit\n" is an exit |
| Chat.ControlTextArrivesIntact | lets-talk.c:277-290 | the control lines the program sends reach the peer unchanged |
| Chat.ControlTextsAreNotExit | lets-talk.c:330-332 | none of the texts the receiver writes into its buffer starts with "!exit"; "Online\n" does not start with "Offline\n" |
| Chat.ExitIsPlainText | lets-talk.c:330-332 | a text that starts with "!exit" takes the plain-text branch of the receiver |
| Chat.SentStep | lets-talk.c:372-398 | sending the k-th message of a queue appends its payload; the presence is then "Offline\n" after a probe, and unchanged otherwise |
| Chat.PayloadsAt | lets-talk.c:371-379 | the i-th payload on the wire is that of the i-th message of the queue |
| Chat.PayloadAt | lets-talk.c:371-379 | the payload at one index of the wire is that of the message at the same index |
| Chat.PresenceAfterIff | lets-talk.c:382-398 | after a drain, the presence is "Offline\n" iff some message was a probe, and unchanged otherwise |
| Chat.DeliverLine | lets-talk.c:176-294 | an ASCII line typed at one program, not a control word, is sent, received and printed verbatim by the other |
| Chat.AnswerProbe | lets-talk.c:276-382 | a received probe is answered with the payload of "!acknowledgement" and changes nothing else |
| Chat.ProbeAnswered | lets-talk.c:283-398 | "!status" typed while the peer runs prints "Online\n", and the presence is "Offline\n" again after the round |
| Chat.ProbeUnanswered | lets-talk.c:297-310 | as the comments at lines 297-298 and 389 intend: "!status" typed with no answer ends the round "Offline\n", and the reception `Failure`, standing for the socket close those comments announce, makes the printer show "Offline\n" |
| Chat.ProbeUnansweredAsWritten | lets-talk.c:386-391 | as written: "!status" typed with no answer ends the round "Offline\n", but nothing is queued for the printer, so nothing is printed |
| Chat.RemoteExit | lets-talk.c:176-332 | "!exit" typed at one program cancels it, and cancels the peer once it arrives there |

## Left out

- Threads, mutexes, condition variables, `pthread_kill`, signal handlers and `sleep`. Each worker-loop body is one atomic step, and the one-second wait of the probe round is "the round completes".
- Sockets: `socket`, `bind`, `recvfrom`, `sendto`, `close`, and the re-creation of the receiver socket after an error. A reception is a byte sequence or a failure; a transmission is an entry in `wire`.
- `main`'s argument count check, `atoi`, `inet_addr`, `printf`, `fflush` and the welcome banner. Printing is an entry in `screen`.
- `fgets`: line splitting, end of input and the 4000-byte cap. A keyboard line is given as a `Text`.
- The implementation of `List` in `list.h` is not part of this model. Both queues are sequences, with `List_add` appending and `List_remove` taking the head.
- Pointer aliasing: `List_add` stores pointers to stack buffers that are reused, so a queued message can be overwritten later. The model queues the message values.
- The receiver decrypts before it writes the terminator, so bytes of an earlier datagram can follow a payload. `Chat.ReadDatagram` receives into a fresh buffer; `Chat.StaleBytesIgnored` proves that the leftover bytes would not change the text.
- The write of `buffer[bytesRecieved]` one past the buffer when 4000 bytes arrive, and the 4000-byte datagram limit.
- The receiver's unlock of `inputListLock`, which it never locked.
- `strtok` overwriting delimiters in `argv[2]`, which the sender then uses as its address.
- Signed `char` and `isdigit` on negative values: bytes are unsigned 0..255.
- Chat.WirePayload: states only a length bound; its exact value is tied to the program by `Chat.Transmit`, `Chat.ReceiverSeesWhatSenderTests` and `Chat.WireRoundTripIff`.

## Findings

| source | as written | input that shows it | evidently intended | confidence | as-written member | corrected member |
|---|---|---|---|---|---|---|
| lets-talk.c:386-391 | after an unanswered probe the sender only unlocks `statusLock`; no code closes the receiver's socket, although the comments at lines 297-298 and 389 say the sender does | "!status" typed while the peer is not running: the receiver stays blocked in `recvfrom` and the printer shows nothing | the sender closes the socket, `recvfrom` fails, and the receiver queues "!status" so the printer shows "Offline\n" | high; not executed | Chat.ProbeUnansweredAsWritten | Chat.ProbeUnanswered |
