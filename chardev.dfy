/** The character device of chardev/chardev.c: a single-session device
    that, on every successful open, formats a greeting carrying the number
    of earlier opens into an 80-byte buffer and hands it out to reads until
    the NUL terminator; writes are refused. */
module CharDev {
  import opened Format

  /** Capacity of the message buffer `msg`, terminator included. */
  const BUF_LEN: nat := 80
  const SUCCESS: int := 0
  /** "Device or resource busy" (Linux errno 16). */
  const EBUSY: int := 16
  /** "Invalid argument" (Linux errno 22). */
  const EINVAL: int := 22
  const NUL: char := '\0'

  /** The fixed text around the counter in the `sprintf` format. */
  const Prefix: string := "I already told you "
  const Suffix: string := " times Hello world!\n"

  datatype Option<T> = None | Some(value: T)

  /** The message an open formats for counter value `n`. */
  function Message(n: nat): string {
    Prefix + Decimal(n) + Suffix
  }

  /** A message splits back into the fixed text and the counter's digits. */
  lemma MessageParts(n: nat)
    ensures |Message(n)| == |Prefix| + |Decimal(n)| + |Suffix|
    ensures Message(n)[..|Prefix|] == Prefix
    ensures Message(n)[|Prefix|..|Message(n)| - |Suffix|] == Decimal(n)
    ensures Message(n)[|Message(n)| - |Suffix|..] == Suffix
  {
  }

  /** Recovers the counter from a message; None if it is not one. */
  function CounterOf(m: string): Option<nat> {
    if |m| < |Prefix| + |Suffix| then None
    else if m[..|Prefix|] != Prefix || m[|m| - |Suffix|..] != Suffix then None
    else
      var digits := m[|Prefix|..|m| - |Suffix|];
      if digits != [] && forall i :: 0 <= i < |digits| ==> IsDigit(digits[i])
      then Some(ParseDecimal(digits))
      else None
  }

  /** The counter a message was formatted from can be read back from it. */
  lemma CounterOfMessage(n: nat)
    ensures CounterOf(Message(n)) == Some(n)
  {
    MessageParts(n);
    ParseDecimalOfDecimal(n);
  }

  /** Distinct counter values give distinct messages. */
  lemma MessageInjective(m: nat, n: nat)
    requires Message(m) == Message(n)
    ensures m == n
  {
    CounterOfMessage(m);
    CounterOfMessage(n);
  }

  /** No character of a message is the terminator, so the NUL that
      `sprintf` appends is the first one in the buffer. */
  lemma MessageHasNoNul(n: nat)
    ensures NoNul(Message(n))
  {
  }

  /** The message plus its terminator fits into `msg` for every value a
      C `int` counter can hold. */
  lemma MessageFits(n: nat)
    requires n <= INT_MAX
    ensures |Message(n)| + 1 <= BUF_LEN
  {
    DecimalWidthInt(n);
  }

  function Min(a: nat, b: nat): nat {
    if a <= b then a else b
  }

  /** What one read of `length` bytes hands out when `rest` is what is left
      of the message. */
  function Chunk(rest: string, length: nat): string {
    rest[..Min(length, |rest|)]
  }

  /** The outputs of successive reads of the given lengths. */
  function Reads(rest: string, lengths: seq<nat>): seq<string>
    decreases |lengths|
  {
    if lengths == [] then []
    else
      var c := Chunk(rest, lengths[0]);
      [c] + Reads(rest[|c|..], lengths[1..])
  }

  /** Peels the first read off a series of reads. */
  lemma ReadsStep(rest: string, lengths: seq<nat>, i: nat)
    requires i < |lengths|
    ensures Reads(rest, lengths[i..]) ==
      [Chunk(rest, lengths[i])] + Reads(rest[|Chunk(rest, lengths[i])|..], lengths[i + 1..])
  {
    assert lengths[i..][1..] == lengths[i + 1..];
  }

  function Concat(parts: seq<string>): string {
    if parts == [] then [] else parts[0] + Concat(parts[1..])
  }

  /** Appending one more output extends the concatenation by it. */
  lemma {:induction false} ConcatAppend(parts: seq<string>, p: string)
    ensures Concat(parts + [p]) == Concat(parts) + p
    decreases |parts|
  {
    if parts != [] {
      assert (parts + [p])[1..] == parts[1..] + [p];
      ConcatAppend(parts[1..], p);
    }
  }

  function Sum(ns: seq<nat>): nat {
    if ns == [] then 0 else ns[0] + Sum(ns[1..])
  }

  function Counts(parts: seq<string>): (ns: seq<nat>)
    ensures |ns| == |parts|
  {
    if parts == [] then [] else [|parts[0]|] + Counts(parts[1..])
  }

  /** Successive reads hand out consecutive pieces of the message: their
      outputs concatenate to a prefix of it, and their byte counts add up
      to the length of that prefix. */
  lemma {:induction false} ReadsArePrefix(rest: string, lengths: seq<nat>)
    ensures |Concat(Reads(rest, lengths))| <= |rest|
    ensures Concat(Reads(rest, lengths)) == rest[..|Concat(Reads(rest, lengths))|]
    ensures Sum(Counts(Reads(rest, lengths))) == |Concat(Reads(rest, lengths))|
    decreases |lengths|
  {
    if lengths != [] {
      var c := Chunk(rest, lengths[0]);
      var tail := rest[|c|..];
      ReadsArePrefix(tail, lengths[1..]);
      var t := Concat(Reads(tail, lengths[1..]));
      assert Reads(rest, lengths) == [c] + Reads(tail, lengths[1..]);
      assert Concat(Reads(rest, lengths)) == c + t;
      assert rest[..|c| + |t|] == c + t;
    }
  }

  /** Enough non-empty reads drain the whole message: their outputs
      concatenate to it and their counts add up to its length. */
  lemma {:induction false} ReadsDrain(rest: string, lengths: seq<nat>)
    requires |lengths| >= |rest|
    requires forall i :: 0 <= i < |lengths| ==> lengths[i] > 0
    ensures Concat(Reads(rest, lengths)) == rest
    ensures Sum(Counts(Reads(rest, lengths))) == |rest|
    decreases |lengths|
  {
    ReadsArePrefix(rest, lengths);
    if rest != [] {
      var c := Chunk(rest, lengths[0]);
      var tail := rest[|c|..];
      ReadsDrain(tail, lengths[1..]);
      assert Reads(rest, lengths) == [c] + Reads(tail, lengths[1..]);
      assert c + tail == rest;
    } else if lengths != [] {
      ReadsAtEnd(lengths);
    }
  }

  /** At the end of the message every read, whatever its length, hands
      out nothing. */
  lemma {:induction false} ReadsAtEnd(lengths: seq<nat>)
    ensures forall i :: 0 <= i < |Reads([], lengths)| ==> Reads([], lengths)[i] == []
    ensures |Reads([], lengths)| == |lengths|
    ensures Concat(Reads([], lengths)) == []
    decreases |lengths|
  {
    if lengths != [] {
      ReadsAtEnd(lengths[1..]);
    }
  }

  /** No character of `s` is the terminator. */
  ghost predicate NoNul(s: string) {
    forall i :: 0 <= i < |s| ==> s[i] != NUL
  }

  /** The device state: the globals `Device_Open`, `msg`, `msg_Ptr` (as an
      index into `msg`) and the function-static `counter` of `device_open`. */
  class Device {
    var deviceOpen: int
    var counter: int
    var msg: array<char>
    var cursor: nat

    /** The message of the current (or last) session, as the string that
        `msg` holds up to its terminator; empty before the first open. */
    ghost var Text: string

    /** The buffer holds `Text` and its terminator, and the cursor points
        into it. */
    ghost predicate Valid()
      reads this, msg
    {
      msg.Length == BUF_LEN &&
      0 <= deviceOpen <= 1 &&
      0 <= counter <= INT_MAX &&
      NoNul(Text) &&
      cursor <= |Text| < msg.Length &&
      msg[..|Text|] == Text && msg[|Text|] == NUL
    }

    /** `Text` reports the number of opens before the last one. */
    ghost predicate Greeting()
      reads this`counter, this`Text
    {
      Text == (if counter <= 0 then [] else Message(counter - 1))
    }

    /** The part of the message not yet read. */
    ghost function Remaining(): string
      reads this
      requires cursor <= |Text|
    {
      Text[cursor..]
    }

    /** The state at module load: closed, no opens yet, a zeroed buffer. */
    constructor ()
      ensures Valid() && Greeting() && fresh(msg)
      ensures deviceOpen == 0 && counter == 0 && cursor == 0 && Text == []
      ensures forall i :: 0 <= i < msg.Length ==> msg[i] == NUL
    {
      deviceOpen := 0;
      counter := 0;
      msg := new char[BUF_LEN](_ => NUL);
      cursor := 0;
      Text := [];
    }

    /** `device_open`: refuses while a session is open; otherwise starts a
        session whose message carries the number of earlier opens. */
    method Open() returns (r: int)
      requires Valid() && Greeting()
      requires deviceOpen == 0 ==> counter < INT_MAX
      modifies this, msg
      ensures Valid() && Greeting() && msg == old(msg)
      ensures old(deviceOpen) != 0 ==> r == -EBUSY && unchanged(this) && unchanged(msg)
      ensures old(deviceOpen) == 0 ==>
        r == SUCCESS && deviceOpen == old(deviceOpen) + 1 &&
        counter == old(counter) + 1 && cursor == 0 &&
        Text == Message(old(counter)) && Remaining() == Message(old(counter))
    {
      if deviceOpen != 0 {
        return -EBUSY;
      }
      deviceOpen := deviceOpen + 1;
      var n := counter;
      counter := counter + 1;
      FormatMessage(n);
      Text := Message(n);
      MessageHasNoNul(n);
      cursor := 0;
      return SUCCESS;
    }

    /** The `sprintf` of `device_open`: stores Message(n) and its
        terminator at the start of `msg`, leaving the bytes after the
        terminator as they were. */
    method FormatMessage(n: nat)
      requires msg.Length == BUF_LEN && n <= INT_MAX
      modifies msg
      ensures |Message(n)| < msg.Length
      ensures msg[..|Message(n)|] == Message(n) && msg[|Message(n)|] == NUL
      ensures msg[|Message(n)| + 1..] == old(msg[|Message(n)| + 1..])
    {
      var s := Message(n);
      MessageFits(n);
      forall i | 0 <= i < |s| {
        msg[i] := s[i];
      }
      msg[|s|] := NUL;
    }

    /** `device_release`: ends the session. */
    method Release() returns (r: int)
      requires Valid() && deviceOpen == 1
      modifies this`deviceOpen
      ensures Valid()
      ensures r == SUCCESS && deviceOpen == old(deviceOpen) - 1 == 0
    {
      deviceOpen := deviceOpen - 1;
      return SUCCESS;
    }

    /** `device_read`: copies bytes from the cursor into `buffer` until the
        terminator or `length` bytes, and advances the cursor past them. */
    method Read(buffer: array<char>, length: nat) returns (bytesRead: int)
      requires Valid() && 0 < counter
      requires buffer != msg && length <= buffer.Length
      modifies this`cursor, buffer
      ensures Valid()
      ensures old(cursor) == |Text| ==> bytesRead == 0 && cursor == old(cursor)
      ensures bytesRead == |Chunk(old(Remaining()), length)|
      ensures cursor == old(cursor) + bytesRead
      ensures buffer[..bytesRead] == Chunk(old(Remaining()), length)
      ensures buffer[bytesRead..] == old(buffer[bytesRead..])
    {
      ghost var rest := Remaining();
      assert forall i :: 0 <= i < |Text| ==> msg[i] == msg[..|Text|][i] != NUL;
      if msg[cursor] == NUL {
        return 0;
      }
      bytesRead := 0;
      var left := length;
      while left > 0 && msg[cursor] != NUL
        invariant old(cursor) <= cursor <= |Text|
        invariant cursor == old(cursor) + bytesRead
        invariant left == length - bytesRead
        invariant buffer[..bytesRead] == rest[..bytesRead]
        invariant forall k :: bytesRead <= k < buffer.Length ==> buffer[k] == old(buffer[k])
        decreases left
      {
        buffer[bytesRead] := msg[cursor];
        cursor := cursor + 1;
        left := left - 1;
        bytesRead := bytesRead + 1;
      }
      assert buffer[bytesRead..] == old(buffer[bytesRead..]);
    }

    /** `device_write`: always refused. */
    method Write(buffer: seq<char>, length: nat) returns (r: int)
      ensures r == -EINVAL
    {
      return -EINVAL;
    }
  }
}
