/** The check `read_serial_data_eg4` applies to what the transport returns. */
module Frames {
  import opened Common

  /** Every response the device sends ends with a carriage return. */
  const Terminator: byte := 13

  /** What one read of a response yields. `BadTerminator` is the only outcome on
      which the driver calls the connection-error hook; `EmptyRead` stands for the
      IndexError that `data[-1]` raises on an empty buffer. */
  datatype Reply =
    | Accepted(data: seq<byte>)
    | TransportFailed
    | BadTerminator
    | EmptyRead

  /** Classifies the transport's result, whose failure value is `None`. */
  function CheckTerminator(transport: Option<seq<byte>>): (r: Reply)
    ensures r.Accepted? <==> transport.Some? && transport.value != [] && transport.value[|transport.value| - 1] == Terminator
    ensures r.Accepted? ==> r.data == transport.value
    ensures r.BadTerminator? <==> transport.Some? && transport.value != [] && transport.value[|transport.value| - 1] != Terminator
    ensures r.TransportFailed? <==> transport.None?
    ensures r.EmptyRead? <==> transport == Some([])
  {
    match transport
    case None => TransportFailed
    case Some(data) =>
      if data == [] then EmptyRead
      else if data[|data| - 1] == Terminator then Accepted(data)
      else BadTerminator
  }

  /** A reply is accepted whatever precedes its last byte, and never when it ends otherwise. */
  lemma TerminatorDecides(data: seq<byte>, last: byte)
    ensures CheckTerminator(Some(data + [last])) == if last == Terminator then Accepted(data + [last]) else BadTerminator
  {
    assert (data + [last])[|data + [last]| - 1] == last;
  }
}
