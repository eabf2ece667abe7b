/**
 * The unit tests of `ReadToCtrlZ`, restated as verified methods over the class's contracts. Where a test
 * drains the reader with `read_to_string`, the scenario issues copy-reads into a 32-byte
 * buffer until one returns 0 (for these inputs, two reads).
 */
module Scenarios {
  import opened Bytes
  import opened Io
  import opened CtrlZ

  /** "foo" */
  const FOO: seq<byte> := [0x66, 0x6F, 0x6F]
  /** "bar" */
  const BAR: seq<byte> := [0x62, 0x61, 0x72]

  /** Copy-reads over `s` into one 32-byte buffer: what the first read delivers, and what the next one reports. */
  method ReadTwice(s: seq<byte>) returns (first: Result<nat>, out: seq<byte>, second: Result<nat>)
    requires |s| <= 32
    ensures first == Ok(|Truncate(s)|) && out == Truncate(s)
    ensures second == Ok(0)
  {
    var src := new Source(s, Honest);
    var reader := new ReadToCtrlZ(src);
    var buf := new byte[32];
    first := reader.Read(buf);
    out := buf[..first.value];
    assert s[0..|s|] == s;
    second := reader.Read(buf);
  }

  /** Tests `read_exclude_ctrl_z`, `read_stop_at_ctrl_z` and `read_after_ctrl_z`. */
  method ReadStopsAtCtrlZ() returns (exclude: seq<byte>, stop: seq<byte>, after: Result<nat>)
    ensures exclude == FOO && stop == FOO && after == Ok(0)
  {
    SentinelCut(FOO, []);
    assert FOO + [CTRL_Z] + [] == FOO + [CTRL_Z];
    var n;
    n, exclude, after := ReadTwice(FOO + [CTRL_Z]);
    SentinelCut(FOO, BAR);
    n, stop, after := ReadTwice(FOO + [CTRL_Z] + BAR);
  }

  /** Test `read_no_ctrl_z`: without a CTRL_Z the bytes pass through unchanged. */
  method ReadNoCtrlZ() returns (out: seq<byte>, after: Result<nat>)
    ensures out == FOO && after == Ok(0)
  {
    var n;
    n, out, after := ReadTwice(FOO);
  }

  /** Test `read_with_bad_inner`: an inner reader claiming one byte more than the empty buffer holds. */
  method ReadWithBadInner() returns (r: Result<nat>)
    ensures r == Err(IoError(Other, "buffer smaller than amount of bytes read"))
  {
    var src := new Source([], Misreports(1));
    var reader := new ReadToCtrlZ(src);
    var buf := new byte[0];
    r := reader.Read(buf);
  }

  /** Tests `buf_read_exclude_ctrl_z`, `buf_read_no_ctrl_z` and `buf_read_stop_at_ctrl_z`. */
  method PeekStopsAtCtrlZ() returns (exclude: Result<seq<byte>>, none: Result<seq<byte>>, stop: Result<seq<byte>>)
    ensures exclude == Ok(FOO) && none == Ok(FOO) && stop == Ok(FOO)
  {
    SentinelCut(FOO, []);
    assert FOO + [CTRL_Z] + [] == FOO + [CTRL_Z];
    var src := new Source(FOO + [CTRL_Z], Honest);
    var reader := new ReadToCtrlZ(src);
    exclude := reader.FillBuf();
    src := new Source(FOO, Honest);
    reader := new ReadToCtrlZ(src);
    none := reader.FillBuf();
    SentinelCut(FOO, BAR);
    src := new Source(FOO + [CTRL_Z] + BAR, Honest);
    reader := new ReadToCtrlZ(src);
    stop := reader.FillBuf();
  }

  /** Test `buf_read_after_ctrl_z`: peek "foo", consume it, and the next peek is empty. */
  method PeekAfterCtrlZ() returns (first: Result<seq<byte>>, second: Result<seq<byte>>)
    ensures first == Ok(FOO) && second == Ok([])
  {
    var s := FOO + [CTRL_Z] + BAR;
    SentinelCut(FOO, BAR);
    var src := new Source(s, Honest);
    var reader := new ReadToCtrlZ(src);
    first := reader.FillBuf();
    reader.Consume(3);
    assert reader.inner.Remaining()[0] == CTRL_Z;
    second := reader.FillBuf();
  }

  /** Test `buf_read_after_starting_ctrl_z`: a leading CTRL_Z empties every peek, with no consume in between. */
  method PeekAfterStartingCtrlZ() returns (first: Result<seq<byte>>, second: Result<seq<byte>>, terminated: bool)
    ensures first == Ok([]) && second == Ok([]) && terminated
  {
    var src := new Source([CTRL_Z] + BAR, Honest);
    var reader := new ReadToCtrlZ(src);
    SentinelCut([], BAR);
    first := reader.FillBuf();
    second := reader.FillBuf();
    terminated := reader.terminated;
  }
}
