/**
 * The reader as a state machine over an honest slice reader: one step per `read`,
 * `fill_buf` and `consume`, and what a caller sees when it drains the reader through
 * either interface.
 */
module Stream {
  import opened Bytes

  /** The wrapped slice, its cursor, and the `terminated` flag. */
  datatype State = State(data: seq<byte>, pos: nat, terminated: bool)
  {
    ghost predicate Valid()
    {
      pos <= |data|
    }

    function Rest(): (rest: seq<byte>)
      requires Valid()
    {
      data[pos..]
    }
  }

  /** A freshly constructed reader over `s`. */
  function Start(s: seq<byte>): (st: State)
  {
    State(s, 0, false)
  }

  /** A copy-read into a buffer of `len` bytes: the new state and the bytes handed to the caller. */
  function ReadStep(st: State, len: nat): (res: (State, seq<byte>))
    requires st.Valid()
    ensures res.0.Valid() && res.0.data == st.data && st.pos <= res.0.pos
    ensures st.terminated ==> res == (st, [])
    ensures res.1 <= st.Rest() && |res.1| <= len && CTRL_Z !in res.1
    ensures |res.1| <= res.0.pos - st.pos
    ensures !st.terminated ==> (res.0.terminated <==> CTRL_Z in st.data[st.pos..res.0.pos])
    ensures 0 < len && res.1 == [] ==> res.0.terminated || res.0.Rest() == []
  {
    if st.terminated then (st, [])
    else
      var k := Min(len, |st.data| - st.pos);
      var out := Truncate(st.Rest()[..k]);
      (State(st.data, st.pos + k, |out| < k), out)
  }

  /** A peek: the new state and the view handed to the caller. */
  function FillStep(st: State): (res: (State, seq<byte>))
    requires st.Valid()
    ensures res.0.Valid() && res.0.data == st.data && res.0.pos == st.pos
    ensures st.terminated ==> res == (st, [])
    ensures !st.terminated ==> res.1 == Truncate(st.Rest())
    ensures res.1 != [] ==> !res.0.terminated
    ensures res.1 == [] ==> res.0.terminated || st.Rest() == []
    ensures !st.terminated && res.0.terminated ==> 0 < |st.Rest()| && st.Rest()[0] == CTRL_Z
  {
    if st.terminated then (st, [])
    else
      var rest := st.Rest();
      var i := CutIndex(rest);
      (State(st.data, st.pos, i == 0 && |rest| > 0), rest[..i])
  }

  /** `consume(amount)` advances the slice and nothing else. */
  function ConsumeStep(st: State, amount: nat): (next: State)
    requires st.Valid() && amount <= |st.Rest()|
    ensures next.Valid() && next.data == st.data && next.terminated == st.terminated
    ensures next.Rest() == st.Rest()[amount..]
  {
    State(st.data, st.pos + amount, st.terminated)
  }

  /** Copy-reads into `len`-byte buffers until a read returns 0: the final state and all bytes read. */
  function DrainRead(st: State, len: nat): (res: (State, seq<byte>))
    requires st.Valid() && 0 < len
    ensures res.0.Valid() && res.0.data == st.data && st.pos <= res.0.pos
    ensures st.terminated ==> res == (st, [])
    ensures CTRL_Z !in res.1
    decreases |st.data| - st.pos
  {
    var (next, out) := ReadStep(st, len);
    if out == [] then (next, [])
    else
      var (last, more) := DrainRead(next, len);
      (last, out + more)
  }

  /** Peeks, each followed by consuming the whole view, until a peek is empty. */
  function DrainPeek(st: State): (res: (State, seq<byte>))
    requires st.Valid()
    ensures res.0.Valid() && res.0.data == st.data && st.pos <= res.0.pos
    ensures st.terminated ==> res == (st, [])
    ensures CTRL_Z !in res.1
    decreases |st.data| - st.pos
  {
    var (peeked, view) := FillStep(st);
    if view == [] then (peeked, [])
    else
      var (last, more) := DrainPeek(ConsumeStep(peeked, |view|));
      (last, view + more)
  }

  /** One read hands over a prefix of the truncated stream; the rest of it is still to come. */
  lemma ReadStepTruncates(st: State, len: nat)
    requires st.Valid() && !st.terminated
    ensures var res := ReadStep(st, len);
            Truncate(st.Rest()) == res.1 + (if res.0.terminated then [] else Truncate(res.0.Rest()))
  {
    var rest := st.Rest();
    var k := Min(len, |rest|);
    var out := Truncate(rest[..k]);
    var next := State(st.data, st.pos + k, |out| < k);
    assert ReadStep(st, len) == (next, out);
    TruncateSplit(rest, k);
    if |out| == k {
      assert next.Rest() == rest[k..];
    }
  }

  /**
   * Reading to exhaustion yields exactly the unconsumed bytes before the first CTRL_Z
   * (nothing once terminated), and any later read yields nothing.
   */
  lemma {:induction false} DrainReadDelivers(st: State, len: nat)
    requires st.Valid() && 0 < len
    ensures DrainRead(st, len).1 == if st.terminated then [] else Truncate(st.Rest())
    ensures ReadStep(DrainRead(st, len).0, len).1 == []
    decreases |st.data| - st.pos
  {
    if !st.terminated {
      var (next, out) := ReadStep(st, len);
      ReadStepTruncates(st, len);
      if out != [] {
        DrainReadDelivers(next, len);
      }
    }
  }

  /**
   * Peeking and consuming each view until a peek is empty yields exactly the unconsumed
   * bytes before the first CTRL_Z, and any later peek is empty. Over a slice one peek already
   * shows all of them, so the next peek starts at the CTRL_Z or at the end.
   */
  lemma DrainPeekDelivers(st: State)
    requires st.Valid()
    ensures DrainPeek(st).1 == if st.terminated then [] else Truncate(st.Rest())
    ensures FillStep(DrainPeek(st).0).1 == []
  {
  }

  /** Both interfaces agree: draining by peek/consume and by copy-reads yields the same bytes. */
  lemma PeekAgreesWithRead(s: seq<byte>, len: nat)
    requires 0 < len
    ensures DrainPeek(Start(s)).1 == DrainRead(Start(s), len).1 == Truncate(s)
  {
    DrainReadDelivers(Start(s), len);
    DrainPeekDelivers(Start(s));
  }

  /** For `a ++ [CTRL_Z] ++ b` with no CTRL_Z in `a`, either interface yields exactly `a`. */
  lemma SentinelStream(a: seq<byte>, b: seq<byte>, len: nat)
    requires CTRL_Z !in a && 0 < len
    ensures DrainRead(Start(a + [CTRL_Z] + b), len).1 == a
    ensures DrainPeek(Start(a + [CTRL_Z] + b)).1 == a
  {
    SentinelCut(a, b);
    PeekAgreesWithRead(a + [CTRL_Z] + b, len);
  }
}
