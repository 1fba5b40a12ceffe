# NUS console bridge — a Dafny model

The `nusserver` example of tinygo-bluetooth turns a BLE peripheral into a
serial console over the Nordic UART Service (NUS). Keystrokes typed on the
local terminal are echoed, collected into a line and, when the user presses
return, sent to the connected central as notifications on the TX
characteristic, cut into pieces of at most 20 bytes. Bytes the central
writes to the RX characteristic are shown on the local terminal, each
carriage return followed by a linefeed. Ctrl-X ends the console, and every
failed call into the BLE stack aborts the process through `must`.

This project models that byte handling:

- `Terminal` (terminal.dfy): bytes, the CR, LF and Ctrl-X constants, and
  the console convention "CR is shown as CR LF" (`Expand`), undone by
  `Collapse`.
- `Inbound` (inbound.dfy): the RX write callback `WriteEvent`, a loop over
  the payload whose `putchar` calls are returned as the bytes written.
- `Chunker` (chunker.dfy): the 20-byte chunking of one send buffer, as the
  pure function `Chunks` and as the `Flush` loop. `Flush` issues one
  `txChar.Write` per piece and passes each write's error to `must`.
- `Console` (console.dfy): the terminal loop of `main` as the method `Run`.
  Its loop body is `Feed`, and the CR branch of that body is `EndLine`. It
  is proved against the functions `Pending` (the line buffer after a
  sequence of keystrokes), `Lines` (the send buffers handed to flushes) and
  `Sent` (all notifications, in order).
- `Errors` (errors.dfy): `must`.

The outside world appears as values:

- Terminal input is a finite byte sequence.
- `putchar` is an output log: the `echo` of a `Session`, the result of
  `WriteEvent`.
- `txChar.Write` appends its argument to a notification log.
- How the transport answers each write is a `Transport` value. It maps the
  k-th write of the session to an error text, and a write with no entry
  succeeds.

Three details of the loop that are easy to miss; the model follows the
code:

- After Ctrl-X the line buffer still ends with the 0x18 byte, because the
  byte is appended before the check.
- A panic in `must` also runs the deferred `restoreTerminal`.
- The two branches are tested in the code's order: Ctrl-X first, then CR.

## Model

| member | source | states |
|---|---|---|
| `Errors.Must` | examples/nusserver/main.go:100-104 | returns normally exactly when there is no error; otherwise the abort message is "failed to " + action + ": " followed by the error text |
| `Terminal.ExpandShape` | examples/nusserver/main.go:44-50 | each CR adds exactly one byte to the terminal output; a CR-free payload is shown unchanged |
| `Terminal.CollapseExpand` | examples/nusserver/main.go:44-50 | dropping the LF after each CR gives the input back: no byte is lost, duplicated or reordered by the CR LF expansion |
| `Terminal.ExpandAppend` | examples/nusserver/main.go:44-50 | the output for two pieces of input is the output of the first followed by that of the second (the mapping is byte by byte, in order) |
| `Inbound.WriteEvent` | examples/nusserver/main.go:43-51 | the bytes written to the terminal are the payload with every CR followed by LF, in order; an empty payload writes nothing; the offset has no effect |
| `Inbound.PayloadExample` | examples/nusserver/main.go:43-51 | the payload 0x41 0x0D 0x42 is shown as 0x41 0x0D 0x0A 0x42 |
| `Chunker.Chunks` | examples/nusserver/main.go:84-91 | the pieces of one flush concatenate back to exactly the send buffer |
| `Chunker.ChunksSizes` | examples/nusserver/main.go:84-91 | every piece is 1 to 20 bytes, all but the last exactly 20, and a buffer of L bytes gives ceil(L/20) pieces |
| `Chunker.ChunksUnique` | examples/nusserver/main.go:84-91 | any other cut of the buffer into pieces with those sizes that concatenate back to it is the same cut |
| `Chunker.Flush` | examples/nusserver/main.go:84-95 | the notification log grows by the pieces of the send buffer in order; if every write succeeds, by all of them; at the first failed write it stops after that write and aborts with "failed to send notification: " and the error |
| `Console.PendingShape` | examples/nusserver/main.go:68-81 | the line buffer never holds a CR and always holds the most recent bytes typed |
| `Console.Notifications` | examples/nusserver/main.go:79-95 | the notifications for a series of send buffers carry exactly the buffers' bytes, in order |
| `Console.Step` | examples/nusserver/main.go:66-96 | reading CR sends the pending bytes followed by CR LF, in 20-byte pieces, and empties the line buffer; any other byte is only appended to the line buffer and sends nothing |
| `Console.Accounting` | examples/nusserver/main.go:64-96 | the bytes of all notifications sent, followed by the line buffer, are exactly the local echo of everything typed: nothing lost, duplicated or reordered |
| `Console.LinesTerminated` | examples/nusserver/main.go:74-79 | every send buffer ends in CR LF and holds no other CR |
| `Console.BeforeFirstCR` | examples/nusserver/main.go:64-68 | before the first CR the line buffer holds every byte typed and nothing has been sent |
| `Console.PendingSinceLastCR` | examples/nusserver/main.go:79-81 | after a flush the line buffer holds only the bytes typed since that CR, and they add no notification before the next CR |
| `Console.NotificationsSized` | examples/nusserver/main.go:84-91 | every notification sent by the loop is 1 to 20 bytes long |
| `Console.ShortLineExample` | examples/nusserver/main.go:74-95 | typing "hi" and CR sends exactly one notification, "hi\r\n" |
| `Console.LongLineExample` | examples/nusserver/main.go:84-91 | 45 bytes and a CR are sent as three notifications of 20, 20 and 7 bytes |
| `Console.EndLine` | examples/nusserver/main.go:74-95 | on CR: echoes LF, hands the line plus LF to a flush and empties the line buffer; the notifications are those of the flush, or a prefix ending in the failed write |
| `Console.Feed` | examples/nusserver/main.go:66-96 | one loop pass: echoes the byte, appends it to the line, stops exactly on Ctrl-X without sending anything, and on CR ends the line |
| `Console.FirstCancelSpec` | examples/nusserver/main.go:71-73 | the position where the loop leaves on Ctrl-X is the first Ctrl-X: no earlier byte is Ctrl-X, and the byte there, if the input reaches it, is Ctrl-X |
| `Console.Run` | examples/nusserver/main.go:61-98 | the loop reads no further than the first Ctrl-X and stops there exactly on Cancelled; the echo is the input read with CR shown as CR LF; the line buffer holds the bytes since the last CR; the notifications are those of the completed lines, so a partial line is never sent; a failed write ends the loop right after that write, with the tagged message, and every earlier write succeeded; the terminal is restored on every exit except while still waiting for input |

## Left out

- BLE setup is not modelled: `adapter.Enable`, the advertisement's `Configure` and `Start`, and `AddService` (main.go:24-59). They are calls into the bluetooth library, which is not part of this model. Their `must` checks are the same `Errors.Must`.
- The service and characteristic UUIDs, the local name "NUS", the 100 ms advertising interval and the characteristic permission flags are configuration values with no behaviour here.
- The `Connection` argument of the write callback is an opaque library type and is not modelled. `Inbound.WriteEvent` keeps the `offset` argument, which it does not use.
- `initTerminal`, `restoreTerminal`, `getchar` and `putchar` live in files that are not part of this model. Input is a finite sequence, output is a log, and the restore is the `restored` flag of a `Session`.
- Console.Run: the real `getchar` blocks forever when no byte comes. The model stops when the finite input is used up and reports `AwaitingInput`, with the terminal not yet restored.
- The `println`/`print` banners (main.go:23, 63) are plain output and are not modelled.
- The write callback and the terminal loop run concurrently in the program. The model treats them as two separate sequential procedures that share nothing.
- Go slices are modelled as values. `sendbuf := line` shares storage with `line`, and `line[:0]` keeps that storage. This is harmless because the flush finishes before the next byte is appended, but the model does not capture storage reuse or aliasing.
- Chunker.Flush: a panic in `must` leaves the loop at once. The model makes this the loop condition `outcome.Pass?` and returns the abort message as a value, so the process abort itself is not modelled.
- Chunker.Flush: the library does not say whether a failed `txChar.Write` delivered anything. The model logs every write that was issued, the failing one included.
- `err.Error()` is modelled as the error's text.
