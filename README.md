# chardev: a verified model of the "hello counter" character device

`chardev/chardev.c` is a teaching-example Linux character device. It keeps
its state in file-scope globals:

- a busy flag, `Device_Open`;
- a function-static open counter, `counter`;
- an 80-byte message buffer, `msg` (`BUF_LEN`);
- a read pointer into that buffer, `msg_Ptr`.

On each successful open it formats "I already told you N times Hello
world!\n" into `msg`, with N the number of earlier opens. Reads then drain
that message up to its NUL terminator. Writes are refused with `-EINVAL`,
and a second open while the device is open is refused with `-EBUSY`.

The model has three modules:

- `Format` (format.dfy): the `%d` conversion applied to the counter.
  `Decimal` prints a number and `ParseDecimal` is its inverse. The width
  lemma shows that every non-negative C `int` prints in at most ten digits.
- `CharDev` (chardev.dfy): the constants, the message (`Message`) and its
  inverse (`CounterOf`), and a value-level model of successive reads
  (`Chunk`, `Reads`) with the drain lemmas. It also holds the class
  `Device`, whose fields are the four globals. `msg_Ptr` is an index
  `cursor` into `msg`. A ghost field `Text` is the string that `msg` holds
  up to its terminator. `Valid()` ties the buffer to `Text`, and
  `Greeting()` ties `Text` to the counter. `Open`, `Read` and `Release`
  update the fields in place; `Write` changes nothing. `Read` keeps the
  source's copy loop.
- `Session` (session.dfy): callers of the device. `DrainSession` reads until
  a read returns 0, the way `cat` does. `ReadSeq` issues reads of any given
  lengths and ties their outputs to the read model `Reads`, so the drain
  lemmas are statements about the device. `Reopen` releases and opens
  again. `Scenario` calls load, open, read, read at end, refused open,
  release, open and a short read, and states what each step returns: the
  status of every open and the release, the exact bytes of the two reads,
  the 0 at end of message and the `-EBUSY`.

Errno values are Linux's: `EBUSY` = 16 and `EINVAL` = 22. The operations
return their negations, as the source does.

## Model

| member | source | states |
|---|---|---|
| `Format.Decimal` | chardev/chardev.c:98 | `%d` of a non-negative counter is a non-empty string of decimal digits with no leading zero; it is "0" exactly for 0 |
| `Format.ParseDecimalOfDecimal` | chardev/chardev.c:98 | reading the printed digits back gives the counter: `ParseDecimal(Decimal(n)) == n` |
| `Format.DecimalInjective` | chardev/chardev.c:98 | two counters that print the same are equal |
| `Format.DecimalWidth` | chardev/chardev.c:98 | a number below 10^k prints in at most k digits |
| `Format.DecimalWidthInt` | chardev/chardev.c:90 | every value of the `int` counter prints in at most ten digits |
| `CharDev.CounterOfMessage` | chardev/chardev.c:98 | the counter a message was formatted from is recovered from the message text |
| `CharDev.MessageInjective` | chardev/chardev.c:90-98 | distinct counter values give distinct messages, so no session's message repeats an earlier one |
| `CharDev.MessageHasNoNul` | chardev/chardev.c:98 | the formatted text contains no NUL, so the terminator `sprintf` appends is the first NUL in `msg` |
| `CharDev.MessageFits` | chardev/chardev.c:98 | message plus terminator fit in `BUF_LEN` = 80 bytes for every counter value up to `INT_MAX` |
| `CharDev.ReadsArePrefix` | chardev/chardev.c:121-147 | successive reads of any lengths hand out consecutive pieces: their outputs concatenate to a prefix of the message and their counts sum to that prefix's length |
| `CharDev.ReadsDrain` | chardev/chardev.c:121-147 | enough non-zero-length reads concatenate to exactly the message, and their counts sum to its length |
| `CharDev.ReadsAtEnd` | chardev/chardev.c:129-131 | at end of message every read, whatever its length, returns nothing |
| `CharDev.Device.constructor` | chardev/chardev.c:38-41 | load state: closed, counter 0, cursor 0, buffer all NUL, empty text |
| `CharDev.Device.Open` | chardev/chardev.c:89-103 | if open: `-EBUSY` and nothing changes (counter not advanced); else `0`, busy flag 0 to 1, counter up by exactly one, cursor 0, and the text is the message for the old counter |
| `CharDev.Device.FormatMessage` | chardev/chardev.c:98 | `msg` holds the message and a NUL after it; the bytes past the NUL are untouched |
| `CharDev.Device.Read` | chardev/chardev.c:121-147 | returns `min(length, remaining)`, advances the cursor by that much, and writes the next that-many message bytes into the caller's buffer in order; no other buffer cell changes; at end of message it returns 0 and moves nothing; counter, busy flag and `msg` are untouched |
| `CharDev.Device.Release` | chardev/chardev.c:107-117 | returns 0 and takes the busy flag from 1 to 0 |
| `CharDev.Device.Write` | chardev/chardev.c:151-156 | returns `-EINVAL` for every buffer and length and changes no state |
| `Session.DrainSession` | chardev/chardev.c:121-147 | reading until 0 collects exactly the unread rest of the message; the byte counts add up to its length; only the cursor moved |
| `Session.ReadSeq` | chardev/chardev.c:121-147 | a series of device reads with any requested lengths returns exactly `Reads(old remaining text, lengths)`, so `ReadsArePrefix`, `ReadsDrain` and `ReadsAtEnd` hold of the device; the cursor ends advanced by exactly the bytes returned, and only the cursor moved |
| `Session.Reopen` | chardev/chardev.c:89-117 | after a release the next open succeeds, counts one more open and serves the message for the earlier count |
| `Session.Scenario` | chardev/chardev.c:89-156 | both opens and the release return 0; first session reads "I already told you 0 times Hello world!\n" in one read; the next read returns 0; an open during the session gets `-EBUSY`; after release the second session's first 10 bytes are "I already " |

## Left out

- `init_module` and `cleanup_module`: they only call the kernel's `register_chrdev`, `unregister_chrdev` and `printk`.
- `try_module_get` and `module_put`: kernel module reference counting, treated as no-ops.
- `printk` diagnostics, including the notice `device_write` logs: log output only.
- `put_user`: modelled as a plain store into the caller's array. User-space faults are not modelled; the source ignores its result anyway.
- Concurrency: the test and increment of `Device_Open` is not atomic in the source. The model is sequential.
- The unused `inode`, `file`, `filp` and `offset` parameters.
- `CharDev.Device.Read`: requires a prior open (`counter > 0`). Before the first open `msg_Ptr` is NULL and the source would dereference it.
- `CharDev.Device.Read`: requires `length <= buffer.Length`, the caller's buffer being `length` bytes long, and a buffer distinct from `msg`.
- `CharDev.Device.Release`: requires the device to be open. The source's unconditional decrement would take the flag to -1 after an unmatched release.
- `CharDev.Device.Open`: requires `counter < INT_MAX` when the device is closed. After 2^31 - 1 successful opens the source's `counter++` would overflow a signed `int`, which C leaves undefined. A refused open at that count is still covered.
- hello-3/hello-3.c: only `printk` load and unload hooks and `MODULE_*` metadata, with no behaviour to model.
