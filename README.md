# ctrl-z in Dafny

A verified model of `ReadToCtrlZ`, a Rust reader decorator. It wraps another reader and ends
the stream at the first `0x1A` byte (CTRL-Z, the "substitute character"). Neither that byte
nor anything after it is ever exposed. The reader offers two interfaces that must agree:

- the copy interface, `read`, fills a caller's buffer through the inner reader. It returns the
  index of the first CTRL-Z among the bytes it got, or their count when there is none.
- the peek interface, `fill_buf`/`consume`, exposes the inner reader's buffer up to the first
  CTRL-Z and forwards `consume` unchanged.

A `terminated` flag makes the end absorbing. Once set, `read` returns 0 and `fill_buf` returns
an empty view, and neither touches the inner reader again. The flag is only ever set, never
cleared.

Layout:

- `bytes.dfy` (module `Bytes`): the `byte` type, `CTRL_Z`, `CutIndex` (the first CTRL-Z, or
  the length) and `Truncate` (everything before it), with their characterising lemmas.
- `io.dfy` (module `Io`): `IoError`, `Result`, and `Source`, the inner reader. `Source` is a
  byte slice read from a cursor, as `&[u8]` behaves. Its `behaviour` can also make it report
  a count fixed at construction without writing anything, or fail with a given error. The
  tests' `BadReader` instead reports `buf.len() + 1` on every call. The two agree for the one
  case the test exercises: an empty buffer and a count of 1.
- `ctrl_z.dfy` (module `CtrlZ`): the class `ReadToCtrlZ` with fields `inner` and
  `terminated`, its constructor, `Read`, `FillBuf` and `Consume`. Also `CopyOutcome`, the
  decision `read`'s scan loop makes, and `HonestRead`, the bridge to the stream model.
- `stream.dfy` (module `Stream`): the reader over an honest slice as a state machine. It has
  one step per operation and the stream-level lemmas: draining through either interface
  yields exactly the bytes before the first CTRL-Z, and later reads or peeks yield nothing.
- `scenarios.dfy` (module `Scenarios`): the repository's unit tests, restated as verified
  methods over the class contracts.

Behaviour of the code worth knowing: the overrun error ("buffer smaller than amount of bytes
read", kind `Other`) is raised only when the scan reaches the end of the buffer. An inner
reader that over-reports while its buffer already holds a CTRL-Z gets `Ok(i)`, and the flag is
set. The model follows the code here (`CopyOutcome`).

## Model

| member | source | states |
|---|---|---|
| `CtrlZ.ReadToCtrlZ.constructor` | src/lib.rs:41-46 | A new reader wraps the given inner reader and is not terminated. |
| `CtrlZ.ReadToCtrlZ.Read` | src/lib.rs:53-69 | Once terminated: returns `Ok(0)`, leaves the inner reader and the buffer untouched, stays terminated. Otherwise an inner error passes through unchanged and leaves the flag clear. An inner count `n` gives `CopyOutcome(buf, n)`, and the flag is set exactly when the result is an index below `n`. Over an honest slice the call is the stream model's read step. A misreporting or failing inner reader leaves the cursor and buffer alone. |
| `CtrlZ.CopyOutcome` | src/lib.rs:58-68 | The result is `Ok(i)` with `i <= n`, `i` within the buffer, and no CTRL-Z before `i`. It is an index `i < n` holding CTRL-Z exactly when a CTRL-Z lies in the first `min(n, len)` bytes. It is an error exactly when `n` exceeds the buffer and the buffer holds no CTRL-Z. That error has kind `Other` and message "buffer smaller than amount of bytes read". |
| `CtrlZ.CopyFound` | src/lib.rs:59-66 | A CTRL-Z at `i`, with `i` below both `n` and the buffer length and no CTRL-Z before it, makes the outcome `Ok(i)`. |
| `CtrlZ.CopyPassed` | src/lib.rs:59-68 | `n` bytes within the buffer and no CTRL-Z among them make the outcome `Ok(n)`. |
| `CtrlZ.HonestRead` | src/lib.rs:53-69 | Over an honest slice reader, the copy-read decision succeeds. It equals the stream step: the cursor advances by the bytes copied, the bytes before the cut are delivered, and the flag is set iff the cut falls short of the count. |
| `CtrlZ.ReadToCtrlZ.FillBuf` | src/lib.rs:76-93 | Once terminated: returns an empty view and stays terminated. Otherwise an inner error passes through with the flag clear. An inner buffer `avail` gives `Truncate(avail)`, and the flag is set iff `avail` starts with CTRL-Z. Over a non-failing inner reader the call is the stream model's peek step. |
| `CtrlZ.ReadToCtrlZ.Consume` | src/lib.rs:95-97 | Advances the inner cursor by exactly `amount` and leaves `terminated` unchanged. |
| `Bytes.CutIndex` | src/lib.rs:82-91 | The scan result is at most the length. No CTRL-Z occurs before it. When it is below the length, the byte there is CTRL-Z. |
| `Bytes.Truncate` | src/lib.rs:81-92 | The view is a prefix of the input and contains no CTRL-Z. When shorter than the input, the next byte is CTRL-Z. Without a CTRL-Z it is the input unchanged. |
| `Bytes.CutIndexIs` | src/lib.rs:82-90 | Any index with no CTRL-Z before it and CTRL-Z at it (or at the end) is the scan result, so the first occurrence is unique. |
| `Bytes.CutIndexAppend` | src/lib.rs:59-67 | Scanning `a ++ b` stops in `a` when `a` holds a CTRL-Z. Otherwise it stops at `|a|` plus the scan of `b`. This is why chunked reads agree with one scan. |
| `Bytes.TruncateSplit` | src/lib.rs:59-67 | If the first `k` bytes hold a cut, truncating the whole equals truncating them. Otherwise the whole truncates to those `k` bytes followed by the truncated rest. |
| `Bytes.SentinelCut` | src/lib.rs:130-139 | `a ++ [CTRL-Z] ++ b` with no CTRL-Z in `a` is cut to exactly `a`, whatever `b` holds. |
| `Io.Source.Read` | src/lib.rs:58 | The inner `read` that the wrapper calls. An honest reader copies `min(len, remaining)` bytes, advances its cursor by that many and reports that count, as `<&[u8]>::read` does. A misreporting one writes nothing and reports its fixed count; this matches `BadReader` (which reports `buf.len() + 1`) only for an empty buffer and a count of 1. A failing one returns its error, which the `try!` passes on. Neither of the last two moves the cursor. |
| `Io.Source.FillBuf` | src/lib.rs:81 | A peek returns the reader's error when it fails. Otherwise it returns every unconsumed byte. |
| `Io.Source.Consume` | src/lib.rs:96 | Advances the cursor by exactly `amount`. |
| `Stream.ConsumeStep` | src/lib.rs:95-97 | `consume(amount)` advances the cursor by `amount`: the unconsumed bytes lose their first `amount` bytes. The data and the `terminated` flag are unchanged. |
| `Stream.DrainRead` | src/lib.rs:141-151 | Reading until a read returns 0 never moves the cursor back and never delivers a CTRL-Z. A terminated state delivers nothing and stays put. (What it delivers exactly is `Stream.DrainReadDelivers`.) |
| `Stream.DrainPeek` | src/lib.rs:187-196 | Peeking and consuming until a peek is empty never moves the cursor back and never delivers a CTRL-Z. A terminated state delivers nothing and stays put. (What it delivers exactly is `Stream.DrainPeekDelivers`.) |
| `Stream.ReadStep` | src/lib.rs:53-69 | One copy-read delivers a prefix of the unconsumed bytes, at most `len` long, with no CTRL-Z, and no more than it consumed. A terminated state stays put and delivers nothing. The flag ends set iff a CTRL-Z lay in the consumed bytes. An empty delivery into a non-empty buffer means terminated or exhausted. |
| `Stream.FillStep` | src/lib.rs:76-93 | A peek never moves the cursor. A terminated state stays put with an empty view. Otherwise the view is `Truncate` of the unconsumed bytes. A non-empty view leaves the flag clear. An empty view means terminated or exhausted. The flag is newly set only when the unconsumed bytes start with CTRL-Z. |
| `Stream.ReadStepTruncates` | src/lib.rs:58-68 | One read delivers the next piece of the truncated stream. The truncated stream equals what was delivered followed by what remains after the step, which is nothing if the step terminated. |
| `Stream.DrainReadDelivers` | src/lib.rs:141-151 | Reading until a read returns 0 yields exactly the unconsumed bytes before the first CTRL-Z, or nothing once terminated, for any buffer length above 0. Any further read yields 0. |
| `Stream.DrainPeekDelivers` | src/lib.rs:187-196 | Peeking and consuming each whole view until a peek is empty yields the same bytes, and any further peek is empty. |
| `Stream.PeekAgreesWithRead` | src/lib.rs:72-97 | For every input and buffer length above 0, the peek/consume interface and the copy interface deliver the same bytes: the input truncated at its first CTRL-Z. |
| `Stream.SentinelStream` | src/lib.rs:130-151 | For `a ++ [CTRL-Z] ++ b` with no CTRL-Z in `a`, both interfaces deliver exactly `a`. |
| `Scenarios.ReadTwice` | src/lib.rs:141-151 | Over any input of at most 32 bytes: one read into a 32-byte buffer delivers the truncated input and its length. The next read returns 0. |
| `Scenarios.ReadStopsAtCtrlZ` | src/lib.rs:108-151 | "foo\x1a" and "foo\x1abar" both read as "foo", and a later read returns 0. |
| `Scenarios.ReadNoCtrlZ` | src/lib.rs:119-128 | "foo" reads as "foo" unchanged. |
| `Scenarios.ReadWithBadInner` | src/lib.rs:153-170 | An inner reader reporting 1 byte into an empty buffer makes `read` fail. The error has kind `Other` and message "buffer smaller than amount of bytes read". |
| `Scenarios.PeekStopsAtCtrlZ` | src/lib.rs:172-185 | Peeking "foo\x1a", "foo" and "foo\x1abar" each shows "foo". |
| `Scenarios.PeekAfterCtrlZ` | src/lib.rs:187-196 | Peeking "foo\x1abar" shows "foo". After consuming 3 bytes, the next peek is empty. |
| `Scenarios.PeekAfterStartingCtrlZ` | src/lib.rs:198-207 | Peeking "\x1abar" is empty and latches `terminated`. A second peek with no consume in between is empty too. |

## Left out

- The generic inner reader `R: Read` / `R: BufRead` is one concrete class, `Io.Source`. It is a byte slice with a cursor, and its `behaviour` covers an honest slice, a reader that misreports its count (writing nothing), and a reader that fails. Other inner readers are not modelled.
- Errors from the inner reader (the `try!` at lines 58 and 81) are an error value that passes through unchanged. `ErrorKind` lists only a few of Rust's kinds.
- The `unsafe` `get_unchecked` / `slice::from_raw_parts` fast path is modelled as bounds-checked indexing and slicing, which yields the same values.
- `CtrlZ.ReadToCtrlZ.Consume` requires `amount` to be at most the unconsumed bytes. `<&[u8]>::consume` panics otherwise, and the `BufRead` contract forbids it.
- `Io.Source.FillBuf` exposes every unconsumed byte, as `&[u8]` does. `FillBuf`'s own contract holds for whatever buffer the inner reader exposes. The stream lemmas assume the slice reader.
- Counts are unbounded naturals: `usize` limits are not modelled.
- `read_to_string`, its UTF-8 decoding and the `claim` assertion macros are not modelled. The scenarios replace `read_to_string` with copy-reads into a 32-byte buffer until one returns 0. For these inputs, that takes two reads.
- Blocking, interruption and other I/O behaviour of real inner readers are not modelled.
