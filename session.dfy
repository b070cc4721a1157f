/** Callers of the device: a reader that drains one session the way
    `cat /dev/chardev` does, and the load/open/read/release sequence that
    shows what successive sessions hand out. */
module Session {
  import opened Format
  import opened CharDev

  /** Reads with `buffer` until a read returns 0; the bytes collected are
      exactly the unread rest of the message, and the byte counts add up
      to its length. */
  method DrainSession(d: Device, buffer: array<char>) returns (out: string, total: int)
    requires d.Valid() && 0 < d.counter
    requires buffer != d.msg && 0 < buffer.Length
    modifies d`cursor, buffer
    ensures d.Valid()
    ensures out == old(d.Remaining()) && total == |out|
    ensures d.cursor == |d.Text|
  {
    out, total := [], 0;
    while true
      invariant d.Valid() && d.counter == old(d.counter) && d.Text == old(d.Text) && d.msg == old(d.msg)
      invariant out + d.Remaining() == old(d.Remaining())
      invariant total == |out|
      decreases |d.Remaining()|
    {
      ghost var rest := d.Remaining();
      var n := d.Read(buffer, buffer.Length);
      if n == 0 {
        break;
      }
      assert d.Remaining() == rest[n..];
      out, total := out + buffer[..n], total + n;
    }
  }

  /** Reads once per entry of `lengths`, asking for that many bytes each
      time; the outputs are those of the read model `Reads` on what was
      left of the message, so its lemmas hold of the device's reads. */
  method ReadSeq(d: Device, buffer: array<char>, lengths: seq<nat>) returns (outs: seq<string>)
    requires d.Valid() && 0 < d.counter && buffer != d.msg
    requires forall i :: 0 <= i < |lengths| ==> lengths[i] <= buffer.Length
    modifies d`cursor, buffer
    ensures d.Valid()
    ensures outs == Reads(old(d.Remaining()), lengths)
    ensures d.cursor == old(d.cursor) + |Concat(outs)|
  {
    ghost var start, c0 := d.Remaining(), d.cursor;
    outs := [];
    for i := 0 to |lengths|
      invariant d.Valid() && d.counter == old(d.counter) && d.Text == old(d.Text) && d.msg == old(d.msg)
      invariant Reads(start, lengths) == outs + Reads(d.Remaining(), lengths[i..])
      invariant d.cursor == c0 + |Concat(outs)|
    {
      ghost var rest := d.Remaining();
      var n := d.Read(buffer, lengths[i]);
      ReadsStep(rest, lengths, i);
      assert d.Remaining() == rest[n..];
      var out := buffer[..n];
      assert |out| == n;
      ConcatAppend(outs, out);
      outs := outs + [out];
    }
  }

  /** Closing a session always lets the next open in: it succeeds, counts
      one more open and serves the message for the opens before it. */
  method Reopen(d: Device) returns (released: int, reopened: int)
    requires d.Valid() && d.Greeting() && d.deviceOpen == 1
    requires d.counter < INT_MAX
    modifies d, d.msg
    ensures d.Valid() && d.Greeting()
    ensures released == SUCCESS && reopened == SUCCESS
    ensures d.deviceOpen == 1 && d.counter == old(d.counter) + 1
    ensures d.Remaining() == Message(old(d.counter))
  {
    released := d.Release();
    reopened := d.Open();
  }

  /** The message of the first session, spelled out; it fits one read
      of 100 bytes. */
  lemma FirstMessage()
    ensures Message(0) == "I already told you 0 times Hello world!\n"
    ensures Chunk(Message(0), 100) == Message(0)
  {
    assert Decimal(0) == "0";
  }

  /** The first ten bytes of the second session's message. */
  lemma SecondMessage()
    ensures Message(1)[..10] == "I already "
    ensures Chunk(Message(1), 10) == "I already "
  {
    assert Decimal(1) == "1";
  }

  /** Load, open, read 100 bytes, read again at the end, try a second open,
      release, open again and read 10 bytes. */
  method Scenario() returns (opened1: int, first: string, atEnd: int, busy: int,
                              released: int, opened2: int, second: string)
    ensures opened1 == SUCCESS && first == "I already told you 0 times Hello world!\n"
    ensures atEnd == 0
    ensures busy == -EBUSY
    ensures released == SUCCESS && opened2 == SUCCESS && second == "I already "
  {
    FirstMessage();
    SecondMessage();
    var d := new Device();
    var buffer := new char[100];
    opened1 := d.Open();
    var n := d.Read(buffer, 100);
    first := buffer[..n];
    atEnd := d.Read(buffer, 100);
    busy := d.Open();
    released := d.Release();
    opened2 := d.Open();
    n := d.Read(buffer, 10);
    second := buffer[..n];
  }
}
