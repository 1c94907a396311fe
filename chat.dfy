/** The message handling of the four worker threads, each loop body taken as one atomic
    step over the state they share: the keyboard and sender queue `inputList`, the receiver
    and printer queue `outputList`, the presence text `statusString` and the cancellation
    signal. What the printer writes and what the sender puts on the wire are recorded as
    sequences. */
module Chat {
  import opened CStrings
  import opened Cipher

  /** "!exit", the word that ends the chat on both sides. */
  const EXIT: Text := ['!' as int, 'e' as int, 'x' as int, 'i' as int, 't' as int]

  /** "!exit\n", the line as typed. */
  const EXIT_LINE: Text := EXIT + ['\n' as int]

  /** "!status", the probe word. */
  const STATUS: Text := ['!' as int, 's' as int, 't' as int, 'a' as int, 't' as int, 'u' as int, 's' as int]

  /** "!status\n", the probe line as typed, and as the receiver queues it for the printer. */
  const STATUS_LINE: Text := STATUS + ['\n' as int]

  /** "!acknowledgement", the answer to a probe. */
  const ACK: Text := ['!' as int, 'a' as int, 'c' as int, 'k' as int, 'n' as int, 'o' as int,
                      'w' as int, 'l' as int, 'e' as int, 'd' as int, 'g' as int, 'e' as int,
                      'm' as int, 'e' as int, 'n' as int, 't' as int]

  /** "Online\n" and "Offline\n", the two presence texts. */
  const ONLINE: Text := ['O' as int, 'n' as int, 'l' as int, 'i' as int, 'n' as int, 'e' as int, '\n' as int]
  const OFFLINE: Text := ['O' as int, 'f' as int, 'f' as int, 'l' as int, 'i' as int, 'n' as int, 'e' as int, '\n' as int]

  /** What one `recvfrom` call yields: the bytes of a datagram, or an error. */
  datatype Reception = Datagram(payload: seq<Byte>) | Failure

  /** The bytes `sendto` puts on the wire for message m: its text after encryption in
      place, up to the first NUL. */
  function WirePayload(m: Text): (p: Text)
    ensures |p| <= |m|
  {
    ContentsOfTerminated(m, []);
    Contents(Encrypt(m + [0]))
  }

  /** The text the receiver makes of a datagram: decrypted, then NUL-terminated. */
  function Decoded(p: seq<Byte>): (t: Text)
    ensures |t| <= |p|
  {
    var s := p + [0];
    assert s[|p|] == 0;
    var d := Decrypt(s);
    assert d[|p|] == 0;
    Contents(d)
  }

  /** The text the sender tests for "!status" after decrypting its buffer again. */
  function AfterSend(m: Text): (t: Text)
    ensures |t| <= |m|
  {
    var s := m + [0];
    assert s[|m|] == 0;
    var e := Encrypt(s);
    assert e[|m|] == 0;
    var d := Decrypt(e);
    assert d[|m|] == 0;
    Contents(d)
  }

  /** The text a reception hands to the classification of the receiver, if any: a
      positive byte count is needed. */
  function Arrived(r: Reception): (t: Option<Text>)
    ensures t.Some? <==> r.Datagram? && |r.payload| > 0
  {
    if r.Datagram? && |r.payload| > 0 then Some(Decoded(r.payload)) else None
  }

  /** Whether message m is a probe: a line that begins with "!status". */
  predicate IsProbe(m: Text) {
    StartsWith(m, STATUS)
  }

  /** The presence after the sender has sent ms, starting from status: every probe ends
      its round with the presence Offline, and other messages leave it alone. */
  function PresenceAfter(status: Text, ms: seq<Text>): (r: Text)
    ensures r == status || r == OFFLINE
    decreases |ms|
  {
    if ms == [] then status
    else if IsProbe(ms[|ms| - 1]) then OFFLINE
    else PresenceAfter(status, ms[..|ms| - 1])
  }

  /** The payloads of ms, one per message, in order. */
  function Payloads(ms: seq<Text>): (ps: seq<Text>)
    ensures |ps| == |ms|
  {
    if ms == [] then [] else Payloads(ms[..|ms| - 1]) + [WirePayload(ms[|ms| - 1])]
  }

  /** The receiver's buffer after a datagram of positive length (lets-talk.c:267-274):
      the payload is decrypted in place and then NUL-terminated. */
  method ReadDatagram(p: seq<Byte>) returns (text: Text)
    requires |p| > 0
    ensures text == Decoded(p)
  {
    var n := |p|;
    var a := new Byte[n + 1](i requires 0 <= i <= n => if i < n then p[i] else 0);
    assert a[..] == p + [0];
    DecryptString(a);
    a[n] := 0;
    assert a[..] == Decrypt(p + [0]) by {
      assert Decrypt(p + [0])[n] == 0;
    }
    text := Contents(a[..]);
  }

  /** The sender's buffer for message m (lets-talk.c:375-381): encrypted in place, its
      text handed to `sendto`, then decrypted in place again. */
  method Transmit(m: Text) returns (payload: Text, after: Text)
    ensures payload == WirePayload(m) && after == AfterSend(m)
  {
    var n := |m|;
    var a := new Byte[n + 1](i requires 0 <= i <= n => if i < n then m[i] else 0);
    assert a[..] == m + [0];
    EncryptString(a);
    payload := Contents(a[..]);
    DecryptString(a);
    after := Contents(a[..]);
  }

  /** One chat program's shared state. */
  class Session {
    /** `inputList`: lines for the sender, from the keyboard or the receiver's reply. */
    var outbound: seq<Text>
    /** `outputList`: texts for the printer. */
    var inbound: seq<Text>
    /** `statusString`. */
    var status: Text
    /** Whether `cancellationFlag` has been signalled. */
    var cancelled: bool
    /** What the printer has written, one entry per `printf`. */
    var screen: seq<Text>
    /** What the sender has put on the wire, one payload per `sendto`. */
    var wire: seq<Text>

    /** The presence text is always one of its two values. */
    ghost predicate Valid()
      reads this
    {
      status == ONLINE || status == OFFLINE
    }

    /** The shared state `main` sets up before it starts the threads (lets-talk.c:94-99). */
    constructor ()
      ensures Valid() && status == OFFLINE
      ensures outbound == [] && inbound == [] && !cancelled
      ensures screen == [] && wire == []
    {
      outbound := [];
      inbound := [];
      status := OFFLINE;
      cancelled := false;
      screen := [];
      wire := [];
    }

    /** One pass of `keyboardInput` with the line fgets read (lets-talk.c:176-181). */
    method KeyboardStep(line: Text)
      modifies this
      requires Valid()
      ensures Valid()
      ensures outbound == old(outbound) + [line]
      ensures cancelled == (old(cancelled) || StartsWith(line, EXIT))
      ensures inbound == old(inbound) && status == old(status)
      ensures screen == old(screen) && wire == old(wire)
    {
      outbound := outbound + [line];
      if StartsWith(line, EXIT) {
        cancelled := true;
      }
    }

    /** One pass of `udpReciever` after `recvfrom` returned r (lets-talk.c:272-306,
        330-332). A probe is answered on the outbound queue, an acknowledgement makes the
        presence Online and asks the printer to show it, any other text goes to the
        printer, and an error asks the printer to show the presence as it is. Only plain
        text can carry "!exit", since the other branches overwrite the buffer. */
    method ReceiveStep(r: Reception)
      modifies this
      requires Valid()
      ensures Valid()
      ensures Arrived(r).Some? && StartsWith(Arrived(r).value, STATUS) ==>
        outbound == old(outbound) + [ACK] && inbound == old(inbound) && status == old(status)
      ensures (Arrived(r).Some? && !StartsWith(Arrived(r).value, STATUS)
               && StartsWith(Arrived(r).value, ACK)) ==>
        outbound == old(outbound) && inbound == old(inbound) + [STATUS_LINE] && status == ONLINE
      ensures (Arrived(r).Some? && !StartsWith(Arrived(r).value, STATUS)
               && !StartsWith(Arrived(r).value, ACK)) ==>
        outbound == old(outbound) && inbound == old(inbound) + [Arrived(r).value]
        && status == old(status)
      ensures Arrived(r).None? ==>
        outbound == old(outbound) && inbound == old(inbound) + [STATUS] && status == old(status)
      ensures cancelled
          == (old(cancelled) || (Arrived(r).Some? && StartsWith(Arrived(r).value, EXIT)))
      ensures screen == old(screen) && wire == old(wire)
    {
      ControlTextsAreNotExit();
      var buffer: Text;
      if r.Datagram? && |r.payload| > 0 {
        var text := ReadDatagram(r.payload);
        assert Arrived(r) == Some(text);
        buffer := Classify(text);
      } else {
        buffer := STATUS;
        inbound := inbound + [buffer];
      }
      if StartsWith(buffer, EXIT) {
        cancelled := true;
      }
    }

    /** The branches of `udpReciever` for a decoded datagram (lets-talk.c:276-295), with the
        buffer they leave behind: a probe is answered with "!acknowledgement", an
        acknowledgement turns the presence Online and queues "!status\n" for the printer,
        and any other text is queued as it is. The buffer starts with "!exit" exactly when
        the text did. */
    method Classify(text: Text) returns (buffer: Text)
      modifies this
      requires Valid()
      ensures Valid()
      ensures StartsWith(text, STATUS) ==>
        buffer == ACK && outbound == old(outbound) + [ACK]
        && inbound == old(inbound) && status == old(status)
      ensures !StartsWith(text, STATUS) && StartsWith(text, ACK) ==>
        buffer == STATUS_LINE && outbound == old(outbound)
        && inbound == old(inbound) + [STATUS_LINE] && status == ONLINE
      ensures !StartsWith(text, STATUS) && !StartsWith(text, ACK) ==>
        buffer == text && outbound == old(outbound)
        && inbound == old(inbound) + [text] && status == old(status)
      ensures StartsWith(buffer, EXIT) <==> StartsWith(text, EXIT)
      ensures cancelled == old(cancelled) && screen == old(screen) && wire == old(wire)
    {
      ControlTextsAreNotExit();
      ExitIsPlainText(text);
      buffer := text;
      if StartsWith(buffer, STATUS) {
        buffer := ACK;
        outbound := outbound + [buffer];
      } else if StartsWith(buffer, ACK) {
        status := ONLINE;
        buffer := STATUS_LINE;
        inbound := inbound + [buffer];
      } else {
        inbound := inbound + [buffer];
      }
    }

    /** One pass of `printToScreen` (lets-talk.c:209-222): the head of the queue is printed
        as it is, unless it asks for the presence, which is then printed instead; an empty
        queue prints nothing. */
    method PrintStep()
      modifies this
      requires Valid()
      ensures Valid()
      ensures old(inbound) == [] ==> inbound == [] && screen == old(screen)
      ensures old(inbound) != [] ==> inbound == old(inbound)[1..]
      ensures old(inbound) != [] && StartsWith(old(inbound)[0], STATUS) ==>
        screen == old(screen) + [status]
      ensures old(inbound) != [] && !StartsWith(old(inbound)[0], STATUS) ==>
        screen == old(screen) + [old(inbound)[0]]
      ensures outbound == old(outbound) && status == old(status)
      ensures cancelled == old(cancelled) && wire == old(wire)
    {
      if inbound != [] {
        var message := inbound[0];
        inbound := inbound[1..];
        if StartsWith(message, STATUS) {
          screen := screen + [status];
        } else {
          screen := screen + [message];
        }
      }
    }

    /** One pass of the inner loop of `udpSender` up to the probe test (lets-talk.c:372-382):
        the head of the queue is encrypted in place, its text sent, and the buffer
        decrypted again and tested for "!status". */
    method SendStep() returns (probe: bool)
      modifies this
      requires Valid() && outbound != []
      ensures Valid()
      ensures outbound == old(outbound)[1..]
      ensures wire == old(wire) + [WirePayload(old(outbound)[0])]
      ensures probe == StartsWith(AfterSend(old(outbound)[0]), STATUS)
      ensures probe == IsProbe(old(outbound)[0])
      ensures inbound == old(inbound) && status == old(status)
      ensures cancelled == old(cancelled) && screen == old(screen)
    {
      var m := outbound[0];
      outbound := outbound[1..];
      var payload, after := Transmit(m);
      wire := wire + [payload];
      probe := StartsWith(after, STATUS);
      ProbeTestIff(m);
    }

    /** The end of a probe round, once the sender has waited for the acknowledgement
        (lets-talk.c:386-398): an Online presence is reset to Offline. */
    method EndProbeRound()
      modifies this
      requires Valid()
      ensures Valid() && status == OFFLINE
      ensures outbound == old(outbound) && inbound == old(inbound)
      ensures cancelled == old(cancelled) && screen == old(screen) && wire == old(wire)
    {
      ControlTextsAreNotExit();
      if StartsWith(status, OFFLINE) {
      } else if StartsWith(status, ONLINE) {
        status := OFFLINE;
      }
    }

    /** One pass of the inner loop of `udpSender` (lets-talk.c:372-398), after the first k
        messages of the round's queue have gone: the next one is sent, and a probe ends with
        the presence reset to Offline. */
    method SendNext(ghost queue: seq<Text>, ghost k: nat, ghost wire0: seq<Text>, ghost status0: Text)
      modifies this
      requires Valid() && k < |queue| && outbound == queue[k..]
      requires wire == wire0 + Payloads(queue[..k])
      requires status == PresenceAfter(status0, queue[..k])
      ensures Valid() && outbound == queue[k + 1..]
      ensures wire == wire0 + Payloads(queue[..k + 1])
      ensures status == PresenceAfter(status0, queue[..k + 1])
      ensures inbound == old(inbound) && cancelled == old(cancelled) && screen == old(screen)
    {
      assert outbound[0] == queue[k] && outbound[1..] == queue[k + 1..];
      var probe := SendStep();
      if probe {
        EndProbeRound();
      }
      SentStep(wire0, status0, queue, k);
    }

    /** The inner loop of `udpSender` (lets-talk.c:371-400): the queue is drained in FIFO
        order, each message's payload goes on the wire, and the presence is Offline after
        the round if any message was a probe. */
    method SendAll()
      modifies this
      requires Valid()
      ensures Valid()
      ensures outbound == []
      ensures wire == old(wire) + Payloads(old(outbound))
      ensures status == PresenceAfter(old(status), old(outbound))
      ensures inbound == old(inbound) && cancelled == old(cancelled) && screen == old(screen)
    {
      ghost var queue := outbound;
      ghost var k := 0;
      while outbound != []
        invariant Valid()
        invariant 0 <= k <= |queue| && outbound == queue[k..]
        invariant wire == old(wire) + Payloads(queue[..k])
        invariant status == PresenceAfter(old(status), queue[..k])
        invariant inbound == old(inbound) && cancelled == old(cancelled)
        invariant screen == old(screen)
        decreases |outbound|
      {
        SendNext(queue, k, old(wire), old(status));
        k := k + 1;
      }
      assert queue[..k] == queue;
    }
  }

  /** The receiver decodes a payload to exactly the text the sender tested after sending
      it: whatever the encryption truncated is lost on both sides alike. */
  lemma ReceiverSeesWhatSenderTests(m: Text)
    ensures Decoded(WirePayload(m)) == AfterSend(m)
  {
    var s := m + [0];
    ContentsOfTerminated(m, []);
    var e := Encrypt(s);
    var n := StrLen(e);
    var p: Text := e[..n];
    assert p == WirePayload(m);
    assert e == p + [0] + e[n + 1..];
    ShiftedTerminated(p, e[n + 1..], -KEY);
    var x := Decrypt(p + [0]);
    assert StrLen(x) < |x|;
    ContentsOfPrefix(x, e[n + 1..]);
  }

  /** The bytes a datagram leaves of an earlier, longer one in the receive buffer do not
      change what the receiver reads: `decryptString` runs over them before the
      terminator is written (lets-talk.c:273-274), yet the first |p| bytes come out as
      they would for the payload alone. */
  lemma StaleBytesIgnored(p: seq<Byte>, stale: seq<Byte>)
    ensures Contents(Decrypt(p + stale)[..|p|] + [0]) == Decoded(p)
  {
    PrefixIndependent(p, stale, -KEY);
    var s := p + [0];
    assert s[|p|] == 0;
    var d := Decrypt(s);
    assert d[|p|] == 0;
    assert d == d[..|p|] + [0];
  }

  /** A message arrives as it was typed if and only if it has no 0xFB byte; the sender's
      own probe test then sees it unchanged as well. */
  lemma WireRoundTripIff(m: Text)
    ensures Decoded(WirePayload(m)) == m <==> forall k | 0 <= k < |m| :: m[k] != 0xFB
    ensures Decoded(WirePayload(m)) == m <==> AfterSend(m) == m
  {
    ReceiverSeesWhatSenderTests(m);
    ContentsOfTerminated(m, []);
    TextRoundTripIff(m + [0]);
    assert forall k | 0 <= k < |m| :: (m + [0])[k] == m[k];
  }

  /** The sender's probe test on its re-decrypted buffer sees a probe exactly when the
      typed line is one: a 0xFB byte that cuts the text short always lies inside a line
      that does not begin with "!status". */
  lemma ProbeTestIff(m: Text)
    ensures StartsWith(AfterSend(m), STATUS) <==> IsProbe(m)
  {
    ReceiverSeesWhatSenderTests(m);
    if forall k | 0 <= k < |m| :: m[k] != 0xFB {
      WireRoundTripIff(m);
    } else {
      var j := FirstFB(m, |m|);
      WireTruncates(m, j);
      PrefixStartsWith(m, j);
    }
  }

  /** Cutting a text at a 0xFB byte keeps whether it begins with "!status". */
  lemma PrefixStartsWith(m: Text, j: nat)
    requires j < |m| && m[j] == 0xFB
    ensures StartsWith(m[..j], STATUS) <==> StartsWith(m, STATUS)
  {
    if j < |STATUS| {
      DifferAt(m, STATUS, j);
    } else {
      assert m[..j][..|STATUS|] == m[..|STATUS|];
    }
  }

  /** With a 0xFB byte at j and none before, the receiver gets only the text before j. */
  lemma WireTruncates(m: Text, j: nat)
    requires j < |m| && m[j] == 0xFB
    requires forall k | 0 <= k < j :: m[k] != 0xFB
    ensures Decoded(WirePayload(m)) == m[..j]
  {
    ReceiverSeesWhatSenderTests(m);
    AfterSendTruncates(m, j);
  }

  /** With a 0xFB byte at j and none before, the sender's re-decrypted buffer holds only
      the text before j. */
  lemma AfterSendTruncates(m: Text, j: nat)
    requires j < |m| && m[j] == 0xFB
    requires forall k | 0 <= k < j :: m[k] != 0xFB
    ensures AfterSend(m) == m[..j]
  {
    var s := m + [0];
    ContentsOfTerminated(m, []);
    assert m + [0] + [] == s;
    assert forall k | 0 <= k < j :: s[k] == m[k];
    EncryptTruncates(s, j);
    TakeOfTerminated(m, j);
  }

  lemma TakeOfTerminated(m: Text, j: nat)
    requires j <= |m|
    ensures (m + [0])[..j] == m[..j]
  {
  }

  /** Text typed in ASCII never holds 0xFB, so it always arrives intact. */
  lemma AsciiArrivesIntact(m: Text)
    requires IsAsciiText(m)
    ensures Decoded(WirePayload(m)) == m && AfterSend(m) == m
  {
    WireRoundTripIff(m);
  }

  /** The texts the receiver and the printer compare against classify as intended: the
      "!status\n" line is a probe, the reply is an acknowledgement and no probe, and the
      typed "!exit\n" is an exit. */
  lemma ControlTextsClassify()
    ensures StartsWith(STATUS_LINE, STATUS) && StartsWith(STATUS, STATUS)
    ensures !StartsWith(ACK, STATUS) && StartsWith(ACK, ACK)
    ensures StartsWith(EXIT_LINE, EXIT)
  {
    DifferAt(ACK, STATUS, 1);
    assert STATUS_LINE[..|STATUS|] == STATUS;
    assert EXIT_LINE[..|EXIT|] == EXIT;
  }

  /** The control lines the program sends reach the peer intact. */
  lemma ControlTextArrivesIntact(t: Text)
    requires t == STATUS_LINE || t == ACK || t == EXIT_LINE
    ensures Decoded(WirePayload(t)) == t && AfterSend(t) == t
  {
    assert IsAsciiText(t);
    AsciiArrivesIntact(t);
  }

  // ----- Two programs talking to each other -----

  /** A line typed at a, not a control word, is sent, received by b and printed there. */
  method DeliverLine(a: Session, b: Session, m: Text)
    modifies a, b
    requires a != b && a.Valid() && b.Valid()
    requires a.outbound == [] && b.inbound == []
    requires m != [] && IsAsciiText(m) && !StartsWith(m, STATUS) && !StartsWith(m, ACK)
    ensures a.Valid() && b.Valid()
    ensures a.outbound == [] && a.wire == old(a.wire) + [WirePayload(m)]
    ensures b.screen == old(b.screen) + [m] && b.inbound == []
    ensures b.status == old(b.status) && b.outbound == old(b.outbound)
    ensures a.cancelled == (old(a.cancelled) || StartsWith(m, EXIT))
    ensures b.cancelled == (old(b.cancelled) || StartsWith(m, EXIT))
  {
    AsciiArrivesIntact(m);
    a.KeyboardStep(m);
    var probe := a.SendStep();
    var payload := a.wire[|a.wire| - 1];
    assert payload == WirePayload(m);
    b.ReceiveStep(Datagram(payload));
    b.PrintStep();
  }

  /** b receives a probe and sends the acknowledgement back. */
  method AnswerProbe(b: Session, payload: Text) returns (reply: Text)
    modifies b
    requires b.Valid() && b.outbound == [] && payload == WirePayload(STATUS_LINE)
    ensures b.Valid() && b.outbound == [] && reply == WirePayload(ACK)
    ensures b.wire == old(b.wire) + [reply]
    ensures b.inbound == old(b.inbound) && b.screen == old(b.screen)
    ensures b.status == old(b.status) && b.cancelled == old(b.cancelled)
  {
    ControlTextsClassify();
    ControlTextArrivesIntact(STATUS_LINE);
    ControlTextsAreNotExit();
    b.ReceiveStep(Datagram(payload));
    assert b.outbound == [ACK];
    var answered := b.SendStep();
    reply := b.wire[|b.wire| - 1];
  }

  /** "!status\n" typed at a while b is running: b answers, a shows "Online\n", and the
      end of the probe round leaves a Offline again. */
  method ProbeAnswered(a: Session, b: Session)
    modifies a, b
    requires a != b && a.Valid() && b.Valid()
    requires a.outbound == [] && a.inbound == [] && b.outbound == []
    ensures a.Valid() && b.Valid()
    ensures a.screen == old(a.screen) + [ONLINE] && a.status == OFFLINE
    ensures a.outbound == [] && a.inbound == [] && b.outbound == []
    ensures b.inbound == old(b.inbound) && b.screen == old(b.screen)
    ensures b.status == old(b.status)
    ensures a.cancelled == old(a.cancelled) && b.cancelled == old(b.cancelled)
  {
    a.KeyboardStep(STATUS_LINE);
    var probe := a.SendStep();
    assert probe by {
      ControlTextsClassify();
      ControlTextArrivesIntact(STATUS_LINE);
    }
    var reply := AnswerProbe(b, a.wire[|a.wire| - 1]);
    ControlTextsClassify();
    ControlTextArrivesIntact(ACK);
    ControlTextsAreNotExit();
    a.ReceiveStep(Datagram(reply));
    a.PrintStep();
    a.EndProbeRound();
  }

  /** "!status\n" typed at a with no answer, as the comments of `udpReciever` and
      `udpSender` intend it (lets-talk.c:297-298, 389): the round ends Offline, the sender
      closes the receiver's socket, and the failed `recvfrom` that follows, given here as
      the reception `Failure`, makes the printer show "Offline\n". */
  method ProbeUnanswered(a: Session)
    modifies a
    requires a.Valid() && a.outbound == [] && a.inbound == []
    ensures a.Valid()
    ensures a.screen == old(a.screen) + [OFFLINE] && a.status == OFFLINE
    ensures a.outbound == [] && a.inbound == [] && a.cancelled == old(a.cancelled)
  {
    ControlTextsClassify();
    ControlTextArrivesIntact(STATUS_LINE);
    ControlTextsAreNotExit();
    a.KeyboardStep(STATUS_LINE);
    var probe := a.SendStep();
    assert probe;
    a.EndProbeRound();
    a.ReceiveStep(Failure);
    a.PrintStep();
  }

  /** "!status\n" typed at a with no answer, as the code is written (lets-talk.c:386-391):
      the round ends Offline, but the sender only unlocks `statusLock` and closes no
      socket, so the receiver is never woken and the printer shows nothing. */
  method ProbeUnansweredAsWritten(a: Session)
    modifies a
    requires a.Valid() && a.outbound == [] && a.inbound == []
    ensures a.Valid() && a.status == OFFLINE
    ensures a.screen == old(a.screen) && a.inbound == [] && a.outbound == []
    ensures a.cancelled == old(a.cancelled)
  {
    ControlTextsClassify();
    ControlTextArrivesIntact(STATUS_LINE);
    ControlTextsAreNotExit();
    a.KeyboardStep(STATUS_LINE);
    var probe := a.SendStep();
    assert probe;
    a.EndProbeRound();
    a.PrintStep();
  }

  /** "!exit\n" typed at a cancels a, and cancels b once it arrives there. */
  method RemoteExit(a: Session, b: Session)
    modifies a, b
    requires a != b && a.Valid() && b.Valid()
    requires a.outbound == []
    ensures a.Valid() && b.Valid()
    ensures a.cancelled && b.cancelled
    ensures b.inbound == old(b.inbound) + [EXIT_LINE]
  {
    ControlTextsClassify();
    ControlTextArrivesIntact(EXIT_LINE);
    ExitIsPlainText(EXIT_LINE);
    a.KeyboardStep(EXIT_LINE);
    var probe := a.SendStep();
    b.ReceiveStep(Datagram(a.wire[|a.wire| - 1]));
  }

  /** Sending the next message of the queue extends the wire by its payload and the
      probes seen by its own probe test. */
  lemma SentStep(wire: seq<Text>, status: Text, queue: seq<Text>, k: nat)
    requires k < |queue|
    ensures wire + Payloads(queue[..k + 1]) == wire + Payloads(queue[..k]) + [WirePayload(queue[k])]
    ensures PresenceAfter(status, queue[..k + 1])
        == if IsProbe(queue[k]) then OFFLINE else PresenceAfter(status, queue[..k])
  {
    assert queue[..k + 1][..k] == queue[..k];
  }

  /** The wire holds one payload per message, in order. */
  lemma PayloadsAt(ms: seq<Text>)
    ensures forall i | 0 <= i < |ms| :: Payloads(ms)[i] == WirePayload(ms[i])
  {
    forall i | 0 <= i < |ms|
      ensures Payloads(ms)[i] == WirePayload(ms[i])
    {
      PayloadAt(ms, i);
    }
  }

  /** The payload of the i-th message is the i-th entry of the wire. */
  lemma {:induction false} PayloadAt(ms: seq<Text>, i: nat)
    requires i < |ms|
    ensures Payloads(ms)[i] == WirePayload(ms[i])
  {
    var init := ms[..|ms| - 1];
    if i < |init| {
      PayloadAt(init, i);
      assert init[i] == ms[i];
    }
  }

  /** The presence after a round is Offline exactly when some message of the round was a
      probe, and is left as it was otherwise. */
  lemma {:induction false} PresenceAfterIff(status: Text, ms: seq<Text>)
    ensures PresenceAfter(status, ms)
         == if exists i | 0 <= i < |ms| :: IsProbe(ms[i]) then OFFLINE else status
  {
    if ms != [] {
      var init := ms[..|ms| - 1];
      PresenceAfterIff(status, init);
      assert forall i | 0 <= i < |init| :: init[i] == ms[i];
      if !IsProbe(ms[|ms| - 1]) && exists i | 0 <= i < |ms| :: IsProbe(ms[i]) {
        var i :| 0 <= i < |ms| && IsProbe(ms[i]);
        assert IsProbe(init[i]);
      }
    }
  }

  /** None of the texts the program writes itself starts with "!exit", and the presence
      texts do not start with each other. */
  lemma ControlTextsAreNotExit()
    ensures !StartsWith(ACK, EXIT) && !StartsWith(STATUS_LINE, EXIT) && !StartsWith(STATUS, EXIT)
    ensures !StartsWith(ONLINE, OFFLINE) && StartsWith(OFFLINE, OFFLINE)
  {
    DifferAt(ACK, EXIT, 1);
    DifferAt(STATUS_LINE, EXIT, 1);
    DifferAt(STATUS, EXIT, 1);
    DifferAt(ONLINE, OFFLINE, 1);
  }

  /** A text that starts with "!exit" is neither a probe nor an acknowledgement. */
  lemma ExitIsPlainText(t: Text)
    ensures StartsWith(t, EXIT) ==> !StartsWith(t, STATUS) && !StartsWith(t, ACK)
  {
    if StartsWith(t, EXIT) {
      DifferAt(t, STATUS, 1);
      DifferAt(t, ACK, 1);
    }
  }
}
