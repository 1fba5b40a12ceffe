/** The write callback of the RX characteristic: bytes written by the central
    are shown on the local terminal. */
module Inbound {
  import opened Terminal

  /** One inbound write event. Returns the bytes handed to `putchar`, in
      order: the payload with every CR followed by an LF. The offset takes no
      part in the result. */
  method WriteEvent(offset: int, value: seq<byte>) returns (written: seq<byte>)
    ensures written == Expand(value)
    ensures Collapse(written) == value
    ensures |written| == |value| + CountCR(value)
  {
    written := [];
    for i := 0 to |value|
      invariant written == Expand(value[..i])
    {
      var c := value[i];
      written := written + [c];
      if c == CR {
        written := written + [LF];
      }
      assert value[..i + 1] == value[..i] + [c];
      ExpandSnoc(value[..i], c);
    }
    assert value[..|value|] == value;
    CollapseExpand(value);
    ExpandShape(value);
  }

  /** The payload 0x41 0x0D 0x42 shows on the terminal as 0x41 0x0D 0x0A
      0x42. */
  lemma PayloadExample()
    ensures Expand([0x41, CR, 0x42]) == [0x41, CR, LF, 0x42]
  {
    var payload: seq<byte> := [0x41, CR, 0x42];
    assert payload[1..] == [CR, 0x42] && payload[2..] == [0x42];
    assert Expand([0x42]) == [0x42] + Expand([]);
    assert Expand([CR, 0x42]) == [CR, LF] + Expand([0x42]);
  }
}
