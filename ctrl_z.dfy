/**
 * `ReadToCtrlZ`: a reader decorator that ends the stream at the first CTRL-Z (0x1A) byte,
 * through both the copy interface (`read`) and the peek interface (`fill_buf`/`consume`).
 */
module CtrlZ {
  import opened Bytes
  import opened Io
  import opened Stream

  /** The error `read` raises when the inner reader claims more bytes than the buffer holds. */
  const BUFFER_TOO_SMALL: IoError := IoError(Other, "buffer smaller than amount of bytes read")

  /**
   * What `read` returns once the inner reader has reported `n` and left `written` in the
   * buffer: the index of the first CTRL_Z among the first `n` bytes, `n` itself when there
   * is none, or BUFFER_TOO_SMALL when `n` overruns a buffer that holds no CTRL_Z.
   */
  function CopyOutcome(written: seq<byte>, n: nat): (r: Result<nat>)
    ensures r.Ok? ==> r.value <= n && r.value <= |written| && CTRL_Z !in written[..r.value]
    ensures r.Ok? && r.value < n ==> r.value < |written| && written[r.value] == CTRL_Z
    ensures (r.Ok? && r.value < n) <==> CTRL_Z in written[..Min(n, |written|)]
    ensures r.Err? <==> n > |written| && CTRL_Z !in written
    ensures r.Err? ==> r.error == BUFFER_TOO_SMALL
  {
    var m := Min(n, |written|);
    var i := CutIndex(written[..m]);
    assert written[..m][..i] == written[..i];
    assert m == |written| ==> written[..m] == written;
    if i < m then Ok(i)
    else if n > |written| then Err(BUFFER_TOO_SMALL)
    else Ok(n)
  }

  /** The scan found a CTRL_Z at `i`, among the first `n` bytes and within the buffer. */
  lemma CopyFound(written: seq<byte>, n: nat, i: nat)
    requires i < n && i < |written|
    requires CTRL_Z !in written[..i] && written[i] == CTRL_Z
    ensures CopyOutcome(written, n) == Ok(i)
  {
    CutIndexIs(written[..Min(n, |written|)], i);
  }

  /** The scan passed all `n` bytes, all within the buffer, without a CTRL_Z. */
  lemma CopyPassed(written: seq<byte>, n: nat)
    requires n <= |written| && CTRL_Z !in written[..n]
    ensures CopyOutcome(written, n) == Ok(n)
  {
    CutIndexIs(written[..n], n);
  }

  /**
   * Over an honest slice reader, the copy-read decision is the stream model's read step:
   * the same count, the same bytes, and terminated exactly when the count falls short.
   */
  lemma HonestRead(data: seq<byte>, start: nat, written: seq<byte>, n: nat)
    requires start <= |data| && n == Min(|written|, |data| - start)
    requires written[..n] == data[start..start + n]
    ensures CopyOutcome(written, n).Ok?
    ensures var i := CopyOutcome(written, n).value;
            ReadStep(State(data, start, false), |written|) == (State(data, start + n, i < n), written[..i])
  {
    assert data[start..][..n] == written[..n];
    var i := CutIndex(written[..n]);
    assert written[..n][..i] == written[..i];
  }

  class ReadToCtrlZ {
    const inner: Source
    var terminated: bool

    ghost predicate Valid()
      reads this, inner
    {
      inner.Valid()
    }

    constructor (inner: Source)
      requires inner.Valid()
      ensures Valid()
      ensures this.inner == inner && !terminated
    {
      this.inner := inner;
      this.terminated := false;
    }

    /** `Read::read`. */
    method Read(buf: array<byte>) returns (r: Result<nat>)
      requires Valid()
      modifies this, inner, buf
      ensures Valid()
      ensures old(terminated) ==> terminated && r == Ok(0) && unchanged(inner) && unchanged(buf)
      ensures !old(terminated) ==>
                match old(inner.ReadCount(buf.Length))
                case Err(e) => r == Err(e) && !terminated
                case Ok(n) => r == CopyOutcome(buf[..], n) && (terminated <==> r.Ok? && r.value < n)
      ensures inner.behaviour.Honest? ==>
                r.Ok? && r.value <= buf.Length &&
                ReadStep(State(inner.data, old(inner.pos), old(terminated)), buf.Length)
                == (State(inner.data, inner.pos, terminated), buf[..r.value])
      ensures !inner.behaviour.Honest? ==> inner.pos == old(inner.pos) && buf[..] == old(buf[..])
    {
      if terminated {
        return Ok(0);
      }
      ghost var start := inner.pos;
      var got := inner.Read(buf);
      if got.Err? {
        return Err(got.error);
      }
      var n := got.value;
      for i := 0 to n
        invariant i <= buf.Length
        invariant CTRL_Z !in buf[..i]
        invariant !terminated
        modifies this
      {
        if i >= buf.Length {
          return Err(BUFFER_TOO_SMALL);
        }
        if buf[i] == CTRL_Z {
          terminated := true;
          CopyFound(buf[..], n, i);
          if inner.behaviour.Honest? {
            HonestRead(inner.data, start, buf[..], n);
          }
          return Ok(i);
        }
      }
      CopyPassed(buf[..], n);
      if inner.behaviour.Honest? {
        HonestRead(inner.data, start, buf[..], n);
      }
      return Ok(n);
    }

    /** `BufRead::fill_buf`. */
    method FillBuf() returns (r: Result<seq<byte>>)
      requires Valid()
      modifies this
      ensures Valid()
      ensures old(terminated) ==> terminated && r == Ok([])
      ensures !old(terminated) ==>
                match inner.Available()
                case Err(e) => r == Err(e) && !terminated
                case Ok(avail) => r == Ok(Truncate(avail)) && (terminated <==> 0 < |avail| && avail[0] == CTRL_Z)
      ensures !inner.behaviour.Fails? ==>
                r.Ok? && FillStep(State(inner.data, inner.pos, old(terminated))) == (State(inner.data, inner.pos, terminated), r.value)
    {
      if terminated {
        return Ok([]);
      }
      var avail := inner.FillBuf();
      if avail.Err? {
        return Err(avail.error);
      }
      var buf := avail.value;
      for i := 0 to |buf|
        invariant CTRL_Z !in buf[..i]
        invariant !terminated
        modifies this
      {
        if buf[i] == CTRL_Z {
          if i == 0 {
            terminated := true;
          }
          CutIndexIs(buf, i);
          return Ok(buf[..i]);
        }
      }
      CutIndexIs(buf, |buf|);
      return Ok(buf);
    }

    /** `BufRead::consume`: forwarded to the inner reader unchanged. */
    method Consume(amount: nat)
      requires Valid() && amount <= |inner.Remaining()|
      modifies inner
      ensures Valid() && terminated == old(terminated)
      ensures inner.pos == old(inner.pos) + amount
      ensures State(inner.data, inner.pos, terminated) == ConsumeStep(State(inner.data, old(inner.pos), terminated), amount)
    {
      inner.Consume(amount);
    }
  }
}
