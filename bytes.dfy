/** Bytes, the CTRL-Z sentinel, and where a byte sequence is cut short. */
module Bytes {

  /** An unsigned 8-bit value, Rust's `u8`. */
  newtype byte = b: int | 0 <= b < 0x100

  /** The substitute character (`CTRL-Z`); nothing from it onward is ever exposed. */
  const CTRL_Z: byte := 0x1A

  /** The smaller of two counts (used for how many bytes a read can move). */
  function Min(a: nat, b: nat): (m: nat)
  {
    if a <= b then a else b
  }

  /** The index of the first CTRL_Z in `s`, or `|s|` when `s` holds none. */
  function CutIndex(s: seq<byte>): (i: nat)
    ensures i <= |s|
    ensures CTRL_Z !in s[..i]
    ensures i < |s| ==> s[i] == CTRL_Z
  {
    if s == [] || s[0] == CTRL_Z then 0
    else
      var j := CutIndex(s[1..]);
      assert s[..1 + j] == [s[0]] + s[1..][..j];
      1 + j
  }

  /** The part of `s` a reader may expose: everything before the first CTRL_Z. */
  function Truncate(s: seq<byte>): (t: seq<byte>)
    ensures t <= s
    ensures CTRL_Z !in t
    ensures |t| < |s| ==> s[|t|] == CTRL_Z
    ensures |t| < |s| <==> CTRL_Z in s
    ensures CTRL_Z !in s ==> t == s
  {
    s[..CutIndex(s)]
  }

  /** The three facts in the contract of CutIndex determine it. */
  lemma CutIndexIs(s: seq<byte>, i: nat)
    requires i <= |s|
    requires CTRL_Z !in s[..i]
    requires i < |s| ==> s[i] == CTRL_Z
    ensures CutIndex(s) == i
  {
  }

  /** Scanning a concatenation: the cut falls in `a` when `a` holds a CTRL_Z, otherwise in `b`. */
  lemma CutIndexAppend(a: seq<byte>, b: seq<byte>)
    ensures CutIndex(a + b) == if CTRL_Z in a then CutIndex(a) else |a| + CutIndex(b)
  {
    var ab := a + b;
    if CTRL_Z in a {
      var i := CutIndex(a);
      assert a[..|a|] == a;
      assert ab[..i] == a[..i];
      CutIndexIs(ab, i);
    } else {
      var j := CutIndex(b);
      assert ab[..|a| + j] == a + b[..j];
      CutIndexIs(ab, |a| + j);
    }
  }

  /** Truncating a stream read in two pieces: the first piece either holds the cut or passes whole. */
  lemma TruncateSplit(s: seq<byte>, k: nat)
    requires k <= |s|
    ensures |Truncate(s[..k])| < k ==> Truncate(s) == Truncate(s[..k])
    ensures |Truncate(s[..k])| == k ==> Truncate(s) == s[..k] + Truncate(s[k..])
  {
    assert s == s[..k] + s[k..];
    CutIndexAppend(s[..k], s[k..]);
    if CutIndex(s[..k]) < k {
      assert s[..CutIndex(s)] == s[..k][..CutIndex(s[..k])];
    } else {
      assert s[..k][..k] == s[..k];
      assert s[..k + CutIndex(s[k..])] == s[..k] + s[k..][..CutIndex(s[k..])];
    }
  }

  /** A stream `a ++ [CTRL_Z] ++ b` with no CTRL_Z in `a` is cut down to `a`, whatever `b` holds. */
  lemma SentinelCut(a: seq<byte>, b: seq<byte>)
    requires CTRL_Z !in a
    ensures Truncate(a + [CTRL_Z] + b) == a
  {
    var s := a + [CTRL_Z] + b;
    assert s[..|a|] == a;
    CutIndexIs(s, |a|);
  }
}
