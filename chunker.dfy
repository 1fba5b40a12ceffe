/** The flush stage of the outbound path: a completed line is cut into
    pieces of at most 20 bytes, each sent as one notification on the TX
    characteristic, in order. */
module Chunker {
  import opened Errors
  import opened Terminal

  /** Largest notification payload the bridge sends. */
  const CHUNK_SIZE: nat := 20

  /** The action named in the abort message of a failed notification. */
  const SEND_ACTION: string := "send notification"

  /** The bytes of `cs`, one piece after the other. */
  function Concat(cs: seq<seq<byte>>): seq<byte> {
    if cs == [] then [] else cs[0] + Concat(cs[1..])
  }

  /** Concatenation distributes over appending lists of pieces. */
  lemma {:induction false} ConcatAppend(a: seq<seq<byte>>, b: seq<seq<byte>>)
    ensures Concat(a + b) == Concat(a) + Concat(b)
  {
    if a != [] {
      assert (a + b)[0] == a[0];
      assert (a + b)[1..] == a[1..] + b;
      ConcatAppend(a[1..], b);
    } else {
      assert a + b == b;
    }
  }

  /** Every piece is non-empty and at most `CHUNK_SIZE` bytes long, and every
      piece but the last is exactly `CHUNK_SIZE` bytes long. */
  ghost predicate WellSized(cs: seq<seq<byte>>) {
    && (forall i :: 0 <= i < |cs| ==> 0 < |cs[i]| <= CHUNK_SIZE)
    && (forall i :: 0 <= i < |cs| - 1 ==> |cs[i]| == CHUNK_SIZE)
  }

  /** The notifications one flush of `sendbuf` issues: each step chops off
      the first 20 bytes, or all that is left when fewer remain. Together
      they give back `sendbuf`: nothing lost, duplicated or reordered. */
  function Chunks(sendbuf: seq<byte>): (r: seq<seq<byte>>)
    ensures Concat(r) == sendbuf
    decreases |sendbuf|
  {
    if |sendbuf| == 0 then []
    else
      var partlen := if |sendbuf| < CHUNK_SIZE then |sendbuf| else CHUNK_SIZE;
      var rest := Chunks(sendbuf[partlen..]);
      assert ([sendbuf[..partlen]] + rest)[1..] == rest;
      [sendbuf[..partlen]] + rest
  }

  /** Every notification of a flush is 1 to 20 bytes long, all but the last
      exactly 20, and a flush of L bytes issues ceil(L / 20) of them. */
  lemma {:induction false} ChunksSizes(sendbuf: seq<byte>)
    ensures WellSized(Chunks(sendbuf))
    ensures |Chunks(sendbuf)| == (|sendbuf| + CHUNK_SIZE - 1) / CHUNK_SIZE
    decreases |sendbuf|
  {
    if |sendbuf| != 0 {
      var partlen := if |sendbuf| < CHUNK_SIZE then |sendbuf| else CHUNK_SIZE;
      ChunksSizes(sendbuf[partlen..]);
      var r := Chunks(sendbuf);
      var rest := Chunks(sendbuf[partlen..]);
      assert r == [sendbuf[..partlen]] + rest;
      forall i | 0 <= i < |r| ensures 0 < |r[i]| <= CHUNK_SIZE {
        if i > 0 { assert r[i] == rest[i - 1]; }
      }
      forall i | 0 <= i < |r| - 1 ensures |r[i]| == CHUNK_SIZE {
        if i > 0 { assert r[i] == rest[i - 1]; }
      }
    }
  }

  /** `Chunks` is the only well-sized way to cut a buffer into pieces that
      concatenate back to it. */
  lemma {:induction false} ChunksUnique(sendbuf: seq<byte>, cs: seq<seq<byte>>)
    requires Concat(cs) == sendbuf
    requires WellSized(cs)
    ensures cs == Chunks(sendbuf)
    decreases |cs|
  {
    if cs != [] {
      var tail := cs[1..];
      assert sendbuf == cs[0] + Concat(tail);
      assert WellSized(tail) by {
        forall i | 0 <= i < |tail| ensures 0 < |tail[i]| <= CHUNK_SIZE {
          assert tail[i] == cs[i + 1];
        }
        forall i | 0 <= i < |tail| - 1 ensures |tail[i]| == CHUNK_SIZE {
          assert tail[i] == cs[i + 1];
        }
      }
      if tail == [] {
        assert sendbuf == cs[0];
        assert Chunks(sendbuf) == [sendbuf] + Chunks([]);
      } else {
        assert Concat(tail) == tail[0] + Concat(tail[1..]);
        assert |cs[0]| == CHUNK_SIZE;
        assert sendbuf[..CHUNK_SIZE] == cs[0];
        assert sendbuf[CHUNK_SIZE..] == Concat(tail);
        ChunksUnique(sendbuf[CHUNK_SIZE..], tail);
      }
    }
  }

  /** How the transport answers `txChar.Write`: the k-th write of the session
      (counting from 0) fails with `failures[k]` when k is a key, and succeeds
      otherwise. */
  datatype Transport = Transport(failures: map<nat, string>) {
    function WriteError(k: nat): Option<string> {
      if k in failures then Some(failures[k]) else None
    }
  }


  /** One flush: drains `sendbuf` in pieces of at most 20 bytes, appending
      each piece to the notification log `log` as `txChar.Write` is called
      with it, and passes each write's error to `must`. On success the log
      grows by exactly `Chunks(sendbuf)`; on the first failed write the flush
      stops after that write and aborts with the tagged message (the panic
      in `must` leaves the loop, which the loop condition models). */
  method Flush(sendbuf: seq<byte>, tx: Transport, log: seq<seq<byte>>)
    returns (log': seq<seq<byte>>, outcome: Outcome)
    ensures |log| <= |log'| <= |log| + |Chunks(sendbuf)|
    ensures log' == log + Chunks(sendbuf)[..|log'| - |log|]
    ensures outcome.Pass? ==> log' == log + Chunks(sendbuf)
    ensures outcome.Pass? ==> forall k | |log| <= k < |log'| :: tx.WriteError(k).None?
    ensures outcome.Abort? ==> |log| < |log'|
    ensures outcome.Abort? ==> outcome == Must(SEND_ACTION, tx.WriteError(|log'| - 1))
    ensures forall k | |log| <= k < |log'| - 1 :: tx.WriteError(k).None?
  {
    ghost var all := Chunks(sendbuf);
    var buf := sendbuf;
    ghost var n := 0;
    log', outcome := log, Pass;
    while |buf| != 0 && outcome.Pass?
      invariant n <= |all| && |log'| == |log| + n
      invariant log' == log + all[..n]
      invariant all[n..] == Chunks(buf)
      invariant forall k | |log| <= k < |log'| - 1 :: tx.WriteError(k).None?
      invariant outcome.Pass? ==> forall k | |log| <= k < |log'| :: tx.WriteError(k).None?
      invariant outcome.Abort? ==> n > 0 && outcome == Must(SEND_ACTION, tx.WriteError(|log'| - 1))
      decreases |buf|
    {
      var partlen := CHUNK_SIZE;
      if |buf| < CHUNK_SIZE {
        partlen := |buf|;
      }
      var part := buf[..partlen];
      assert Chunks(buf) == [part] + Chunks(buf[partlen..]);
      buf := buf[partlen..];
      var err := tx.WriteError(|log'|);
      log' := log' + [part];
      assert all[n] == part;
      assert all[..n + 1] == all[..n] + [part];
      n := n + 1;
      outcome := Must(SEND_ACTION, err);
    }
    assert outcome.Pass? ==> all[..n] == all;
  }
}
