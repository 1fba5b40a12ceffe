/** The outbound half of the NUS console bridge: the terminal loop of `main`
    reads one byte at a time, echoes it, collects it into a line and, on a
    carriage return, flushes the line to the central as notifications of at
    most 20 bytes. Ctrl-X ends the loop. */
module Console {
  import opened Errors
  import opened Terminal
  import opened Chunker

  /** The contents of `line` after the loop has read the bytes `typed`
      (before any Ctrl-X stops it). */
  function Pending(typed: seq<byte>): seq<byte> {
    if |typed| == 0 then []
    else
      var init, c := typed[..|typed| - 1], typed[|typed| - 1];
      if c == CR then [] else Pending(init) + [c]
  }

  /** The line buffer holds the most recent bytes typed, and never a CR. */
  lemma {:induction false} PendingShape(typed: seq<byte>)
    ensures CR !in Pending(typed)
    ensures |Pending(typed)| <= |typed|
    ensures Pending(typed) == typed[|typed| - |Pending(typed)|..]
    decreases |typed|
  {
    if typed != [] {
      var init, c := typed[..|typed| - 1], typed[|typed| - 1];
      PendingShape(init);
      if c != CR {
        assert typed == init + [c];
      }
    }
  }

  /** The send buffers the loop hands to a flush while reading `typed`, in
      order: at each CR, the bytes pending before it, then CR and LF. */
  function Lines(typed: seq<byte>): seq<seq<byte>> {
    if |typed| == 0 then []
    else
      var init := typed[..|typed| - 1];
      if typed[|typed| - 1] == CR then Lines(init) + [Pending(init) + [CR, LF]]
      else Lines(init)
  }

  /** The notifications for a series of send buffers: each buffer's chunks,
      buffer after buffer. Their bytes are the buffers' bytes. */
  function Notifications(lines: seq<seq<byte>>): (r: seq<seq<byte>>)
    ensures Concat(r) == Concat(lines)
  {
    if |lines| == 0 then []
    else
      ConcatAppend(Chunks(lines[0]), Notifications(lines[1..]));
      Chunks(lines[0]) + Notifications(lines[1..])
  }

  /** Every notification sent while reading `typed`, in order. */
  function Sent(typed: seq<byte>): seq<seq<byte>> {
    Notifications(Lines(typed))
  }

  /** The notifications of two series of send buffers, one after the other. */
  lemma {:induction false} NotificationsAppend(a: seq<seq<byte>>, b: seq<seq<byte>>)
    ensures Notifications(a + b) == Notifications(a) + Notifications(b)
  {
    if a == [] {
      assert a + b == b;
    } else {
      assert (a + b)[0] == a[0];
      assert (a + b)[1..] == a[1..] + b;
      NotificationsAppend(a[1..], b);
    }
  }

  /** What reading one more byte `c` does to the line buffer and to what has
      been sent: a CR flushes the pending bytes followed by CR LF and empties
      the line; any other byte is only added to the line. */
  lemma {:induction false} Step(typed: seq<byte>, c: byte)
    ensures c == CR ==> Pending(typed + [c]) == []
    ensures c == CR ==> Sent(typed + [c]) == Sent(typed) + Chunks(Pending(typed) + [CR, LF])
    ensures c != CR ==> Pending(typed + [c]) == Pending(typed) + [c]
    ensures c != CR ==> Sent(typed + [c]) == Sent(typed)
  {
    var t := typed + [c];
    assert t[..|t| - 1] == typed;
    if c == CR {
      var line := Pending(typed) + [CR, LF];
      NotificationsAppend(Lines(typed), [line]);
      assert [line][1..] == [];
      assert Notifications([line]) == Chunks(line) + Notifications([]);
    }
  }


  /** Appending the same bytes on both sides of a split output. Stated
      apart from `AccountingStep` so that this sequence fact is proved in a
      small context; inside that lemma it runs out of resources. */
  lemma Regroup(sent: seq<byte>, pending: seq<byte>, echo: seq<byte>, more: seq<byte>)
    requires sent + pending == echo
    ensures sent + (pending + more) == echo + more
  {
  }

  /** One more byte keeps the accounting of `Accounting` true. */
  lemma AccountingStep(typed: seq<byte>, c: byte)
    requires Concat(Sent(typed)) + Pending(typed) == Expand(typed)
    ensures Concat(Sent(typed + [c])) + Pending(typed + [c]) == Expand(typed + [c])
  {
    Step(typed, c);
    ExpandSnoc(typed, c);
    var sentBefore, pendingBefore := Sent(typed), Pending(typed);
    Regroup(Concat(sentBefore), pendingBefore, Expand(typed), PutBytes(c));
    if c == CR {
      var sendbuf := pendingBefore + [CR, LF];
      ConcatAppend(sentBefore, Chunks(sendbuf));
      assert Concat(Sent(typed + [c])) == Concat(sentBefore) + sendbuf;
    }
  }

  /** Nothing typed is lost, duplicated or reordered: the bytes of all
      notifications sent, followed by the bytes still in the line buffer,
      are exactly the local echo of everything typed. */
  lemma {:induction false} Accounting(typed: seq<byte>)
    ensures Concat(Sent(typed)) + Pending(typed) == Expand(typed)
    decreases |typed|
  {
    if typed != [] {
      var init, c := typed[..|typed| - 1], typed[|typed| - 1];
      assert typed == init + [c];
      Accounting(init);
      AccountingStep(init, c);
    }
  }

  /** Every send buffer is a line terminated by CR LF, with no CR before the
      terminator. */
  lemma {:induction false} LinesTerminated(typed: seq<byte>)
    ensures forall i | 0 <= i < |Lines(typed)| ::
      var l := Lines(typed)[i];
      |l| >= 2 && l[|l| - 2..] == [CR, LF] && CR !in l[..|l| - 2]
    decreases |typed|
  {
    if typed != [] {
      var init := typed[..|typed| - 1];
      LinesTerminated(init);
      if typed[|typed| - 1] == CR {
        PendingShape(init);
        var l := Pending(init) + [CR, LF];
        assert l[..|l| - 2] == Pending(init);
        assert l[|l| - 2..] == [CR, LF];
      }
    }
  }

  /** Before the first CR the line buffer holds everything typed and
      nothing has been sent. */
  lemma {:induction false} BeforeFirstCR(b: seq<byte>)
    requires CR !in b
    ensures Pending(b) == b
    ensures Lines(b) == [] && Sent(b) == []
    decreases |b|
  {
    if b != [] {
      var init, c := b[..|b| - 1], b[|b| - 1];
      assert b == init + [c];
      BeforeFirstCR(init);
    }
  }

  /** The line buffer holds exactly the bytes typed since the last CR, and
      bytes typed after that CR add no notification until the next CR. */
  lemma {:induction false} PendingSinceLastCR(a: seq<byte>, b: seq<byte>)
    requires CR !in b
    ensures Pending(a + [CR] + b) == b
    ensures Sent(a + [CR] + b) == Sent(a + [CR])
    decreases |b|
  {
    if b == [] {
      assert a + [CR] + b == a + [CR];
      Step(a, CR);
    } else {
      var b', c := b[..|b| - 1], b[|b| - 1];
      assert b == b' + [c];
      assert a + [CR] + b == (a + [CR] + b') + [c];
      PendingSinceLastCR(a, b');
      Step(a + [CR] + b', c);
    }
  }

  /** Every notification sent is 1 to 20 bytes long. */
  lemma {:induction false} NotificationsSized(lines: seq<seq<byte>>)
    ensures forall i | 0 <= i < |Notifications(lines)| ::
      0 < |Notifications(lines)[i]| <= CHUNK_SIZE
  {
    if lines != [] {
      var first, rest := Chunks(lines[0]), Notifications(lines[1..]);
      NotificationsSized(lines[1..]);
      ChunksSizes(lines[0]);
      forall i | 0 <= i < |first + rest| ensures 0 < |(first + rest)[i]| <= CHUNK_SIZE {
        if i >= |first| {
          assert (first + rest)[i] == rest[i - |first|];
        }
      }
    }
  }



  /** The line "hi" and a CR go out as one notification "hi\r\n". */
  lemma ShortLineExample()
    ensures Sent([0x68, 0x69, CR]) == [[0x68, 0x69, CR, LF]]
  {
    var hi: seq<byte> := [0x68, 0x69];
    BeforeFirstCR(hi);
    Step(hi, CR);
    assert hi + [CR] == [0x68, 0x69, CR];
    var sendbuf := hi + [CR, LF];
    assert sendbuf[..4] == sendbuf && sendbuf[4..] == [];
    assert Chunks(sendbuf) == [sendbuf] + Chunks([]);
    assert sendbuf == [0x68, 0x69, CR, LF];
    assert Sent(hi + [CR]) == [] + [sendbuf];
  }

  /** 45 bytes and a CR make a 47-byte send buffer, sent as notifications
      of 20, 20 and 7 bytes. */
  lemma LongLineExample(text: seq<byte>)
    requires |text| == 45 && CR !in text
    ensures |Sent(text + [CR])| == 3
    ensures |Sent(text + [CR])[0]| == 20 && |Sent(text + [CR])[1]| == 20
    ensures |Sent(text + [CR])[2]| == 7
  {
    BeforeFirstCR(text);
    Step(text, CR);
    var sendbuf := text + [CR, LF];
    var rest := sendbuf[20..];
    assert Chunks(sendbuf) == [sendbuf[..20]] + Chunks(rest);
    assert Chunks(rest) == [rest[..20]] + Chunks(rest[20..]);
    var last := rest[20..];
    assert last[..7] == last && last[7..] == [];
    assert Chunks(last) == [last] + Chunks([]);
  }

  /** How the terminal loop ended. `AwaitingInput`: the input given so far
      is used up and the loop would go on waiting in `getchar`. */
  datatype Exit = Cancelled | Panicked(message: string) | AwaitingInput

  /** What one run of the terminal loop did: how many input bytes it read,
      the bytes it passed to `putchar`, the line buffer it was left with, the
      notifications it wrote (in order, a failing write included), how it
      ended and whether the deferred terminal restore has run. */
  datatype Session = Session(
    consumed: nat,
    echo: seq<byte>,
    line: seq<byte>,
    sent: seq<seq<byte>>,
    exit: Exit,
    restored: bool)


  /** The end of a line, after the CR itself was echoed and added to the
      line buffer: echo and add an LF, hand the whole line to a flush and
      empty the line buffer. */
  method EndLine(ghost typed: seq<byte>, echo: seq<byte>, line: seq<byte>,
                 sent: seq<seq<byte>>, tx: Transport)
    returns (echo': seq<byte>, line': seq<byte>, sent': seq<seq<byte>>, exit: Exit)
    requires echo == Expand(typed) + [CR] && line == Pending(typed) + [CR]
    requires sent == Sent(typed)
    ensures echo' == Expand(typed + [CR])
    ensures line' == [] == Pending(typed + [CR])
    ensures exit.AwaitingInput? || exit.Panicked?
    ensures exit.AwaitingInput? ==> sent' == Sent(typed + [CR])
    ensures exit.AwaitingInput? ==> forall k | |sent| <= k < |sent'| :: tx.WriteError(k).None?
    ensures exit.Panicked? ==>
      && sent < sent' <= Sent(typed + [CR])
      && Must(SEND_ACTION, tx.WriteError(|sent'| - 1)) == Abort(exit.message)
    ensures forall k | |sent| <= k < |sent'| - 1 :: tx.WriteError(k).None?
  {
    Step(typed, CR);
    ExpandSnoc(typed, CR);
    assert Pending(typed) + [CR] + [LF] == Pending(typed) + [CR, LF];
    echo' := echo + [LF];
    var sendbuf := line + [LF];
    line' := [];
    var outcome;
    sent', outcome := Flush(sendbuf, tx, sent);
    exit := AwaitingInput;
    if outcome.Abort? {
      assert sent < sent' <= sent + Chunks(sendbuf);
      exit := Panicked(outcome.message);
    }
  }

  /** One pass of the loop body for the byte `ch` read from the terminal,
      after the bytes `typed` were handled: echo it, add it to the line and
      then stop on Ctrl-X, or end the line on CR. `exit` is `AwaitingInput`
      when the loop goes on to read the next byte. */
  method Feed(ghost typed: seq<byte>, ch: byte, echo: seq<byte>, line: seq<byte>,
              sent: seq<seq<byte>>, tx: Transport)
    returns (echo': seq<byte>, line': seq<byte>, sent': seq<seq<byte>>, exit: Exit)
    requires echo == Expand(typed) && line == Pending(typed) && sent == Sent(typed)
    ensures echo' == Expand(typed + [ch])
    ensures line' == Pending(typed + [ch])
    ensures exit.Cancelled? <==> ch == CTRL_X
    ensures exit.Cancelled? ==> sent' == sent
    ensures !exit.Panicked? ==> sent' == Sent(typed + [ch])
    ensures !exit.Panicked? ==> forall k | |sent| <= k < |sent'| :: tx.WriteError(k).None?
    ensures exit.Panicked? ==>
      && ch == CR
      && sent < sent' <= Sent(typed + [ch])
      && Must(SEND_ACTION, tx.WriteError(|sent'| - 1)) == Abort(exit.message)
    ensures forall k | |sent| <= k < |sent'| - 1 :: tx.WriteError(k).None?
  {
    ExpandSnoc(typed, ch);
    echo', line', sent' := echo + [ch], line + [ch], sent;
    exit := AwaitingInput;
    if ch == CTRL_X {
      Step(typed, ch);
      exit := Cancelled;
    } else if ch == CR {
      echo', line', sent', exit := EndLine(typed, echo', line', sent, tx);
    } else {
      Step(typed, ch);
    }
  }

  /** The position of the first Ctrl-X in `s`, or `|s|` when there is none:
      the terminal loop reads `s` up to and including this byte. */
  function FirstCancel(s: seq<byte>): nat {
    if |s| == 0 then 0 else if s[0] == CTRL_X then 0 else 1 + FirstCancel(s[1..])
  }

  /** `FirstCancel` is the first Ctrl-X: every byte before it is another
      byte, and the byte at it, if any, is Ctrl-X. */
  lemma {:induction false} FirstCancelSpec(s: seq<byte>)
    ensures FirstCancel(s) <= |s|
    ensures forall j | 0 <= j < FirstCancel(s) :: s[j] != CTRL_X
    ensures FirstCancel(s) < |s| ==> s[FirstCancel(s)] == CTRL_X
  {
    if |s| > 0 && s[0] != CTRL_X {
      FirstCancelSpec(s[1..]);
      forall j | 0 <= j < FirstCancel(s) ensures s[j] != CTRL_X {
        if j > 0 { assert s[j] == s[1..][j - 1]; }
      }
    }
  }

  /** Reading on from a position no later than the first Ctrl-X, the next
      byte is Ctrl-X exactly when it is the first one. */
  lemma FirstCancelAt(s: seq<byte>, i: nat)
    requires i <= FirstCancel(s) && i < |s|
    ensures s[i] == CTRL_X <==> FirstCancel(s) == i
  {
    FirstCancelSpec(s);
  }

  /** The first `i + 1` bytes are the first `i` and one more. Stated apart
      from `Run` so that this sequence fact is proved in a small context;
      inside the loop it makes the proof of `Run` much slower. */
  lemma TakeOneMore(s: seq<byte>, i: nat)
    requires i < |s|
    ensures s[..i + 1] == s[..i] + [s[i]]
  {
  }

  /** The terminal loop of `main`, reading `input` and writing notifications
      through `tx`. It stops at the first Ctrl-X, or at the first failed
      write (a panic in `must`), or when the input runs out. */
  method Run(input: seq<byte>, tx: Transport) returns (s: Session)
    ensures s.consumed <= |input|
    ensures s.consumed <= FirstCancel(input) + 1
    ensures s.echo == Expand(input[..s.consumed])
    ensures s.line == Pending(input[..s.consumed])
    ensures s.exit.Cancelled? <==> s.consumed == FirstCancel(input) + 1
    ensures s.exit.Cancelled? ==> s.sent == Sent(input[..s.consumed - 1])
    ensures s.exit.AwaitingInput? ==> s.consumed == |input|
    ensures !s.exit.Panicked? ==> s.sent == Sent(input[..s.consumed])
    ensures !s.exit.Panicked? ==> forall k | 0 <= k < |s.sent| :: tx.WriteError(k).None?
    ensures s.exit.Panicked? ==>
      && 0 < s.consumed && input[s.consumed - 1] == CR
      && Sent(input[..s.consumed - 1]) < s.sent <= Sent(input[..s.consumed])
      && Must(SEND_ACTION, tx.WriteError(|s.sent| - 1)) == Abort(s.exit.message)
    ensures forall k | 0 <= k < |s.sent| - 1 :: tx.WriteError(k).None?
    ensures s.restored <==> !s.exit.AwaitingInput?
  {
    var i := 0;
    var echo: seq<byte> := [];
    var line: seq<byte> := [];
    var sent: seq<seq<byte>> := [];
    var exit := AwaitingInput;
    ghost var typed: seq<byte> := [];
    while i < |input|
      invariant i <= |input| && typed == input[..i]
      invariant i <= FirstCancel(input)
      invariant echo == Expand(typed)
      invariant line == Pending(typed)
      invariant sent == Sent(typed)
      invariant forall k | 0 <= k < |sent| :: tx.WriteError(k).None?
      invariant exit == AwaitingInput
    {
      var ch := input[i];
      ghost var before := typed;
      echo, line, sent, exit := Feed(before, ch, echo, line, sent, tx);
      TakeOneMore(input, i);
      FirstCancelAt(input, i);
      typed := before + [ch];
      i := i + 1;
      if !exit.AwaitingInput? {
        assert before == input[..i - 1];
        break;
      }
    }
    assert exit.AwaitingInput? ==> typed == input;
    s := Session(i, echo, line, sent, exit, !exit.AwaitingInput?);
  }
}
