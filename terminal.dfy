/** Bytes as the terminal sees them. The console convention of the bridge:
    a carriage return written to the local terminal is always followed by a
    linefeed, both when echoing local keystrokes and when showing bytes that
    the central wrote. */
module Terminal {

  type byte = bv8

  const CR: byte := 0x0D
  const LF: byte := 0x0A
  /** Ctrl-X, the byte that ends the console loop. */
  const CTRL_X: byte := 0x18

  /** The bytes passed to `putchar` for one byte `c`. */
  function PutBytes(c: byte): seq<byte> {
    if c == CR then [CR, LF] else [c]
  }

  /** Number of carriage returns in `s`. */
  function CountCR(s: seq<byte>): nat {
    if s == [] then 0 else (if s[0] == CR then 1 else 0) + CountCR(s[1..])
  }

  /** Terminal output for the bytes `s`, in order: every CR becomes CR LF and
      every other byte appears once. */
  function Expand(s: seq<byte>): seq<byte> {
    if s == [] then [] else PutBytes(s[0]) + Expand(s[1..])
  }

  /** Each CR adds one byte to the output, and bytes without a CR are shown
      unchanged. */
  lemma {:induction false} ExpandShape(s: seq<byte>)
    ensures |Expand(s)| == |s| + CountCR(s)
    ensures CR !in s ==> Expand(s) == s
  {
    if s != [] {
      ExpandShape(s[1..]);
      if CR !in s {
        assert CR !in s[1..];
      }
    }
  }

  /** Undoes `Expand` (a left inverse): drops the LF that follows each CR. */
  function Collapse(t: seq<byte>): seq<byte> {
    if t == [] then []
    else if t[0] == CR && |t| > 1 && t[1] == LF then [CR] + Collapse(t[2..])
    else [t[0]] + Collapse(t[1..])
  }

  /** Expanding is lossless: the original bytes come back, none lost,
      duplicated or reordered. */
  lemma {:induction false} CollapseExpand(s: seq<byte>)
    ensures Collapse(Expand(s)) == s
  {
    if s != [] {
      CollapseExpand(s[1..]);
      var t := Expand(s);
      assert t == PutBytes(s[0]) + Expand(s[1..]);
      if s[0] == CR {
        assert t[2..] == Expand(s[1..]);
      } else {
        assert t[1..] == Expand(s[1..]);
      }
    }
  }

  /** Output for consecutive pieces of input is the concatenation of the
      outputs for each piece. */
  lemma {:induction false} ExpandAppend(a: seq<byte>, b: seq<byte>)
    ensures Expand(a + b) == Expand(a) + Expand(b)
  {
    if a != [] {
      assert (a + b)[0] == a[0];
      assert (a + b)[1..] == a[1..] + b;
      ExpandAppend(a[1..], b);
    } else {
      assert a + b == b;
    }
  }

  /** Output after one more byte: the earlier output, then that byte's
      `putchar` calls. */
  lemma ExpandSnoc(s: seq<byte>, c: byte)
    ensures Expand(s + [c]) == Expand(s) + PutBytes(c)
  {
    ExpandAppend(s, [c]);
    assert Expand([c]) == PutBytes(c) + Expand([]);
  }
}
