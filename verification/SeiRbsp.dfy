/** Emulation prevention of h264.go: escapeRBSP and unescapeRBSP (ITU-T H.264 sections
    7.3.1 and 7.4.1). A run of the loops is described by the functions below, which carry
    the number of zero bytes that immediately precede the rest of the input. */
module SeiRbsp {
  import opened Bytes

  function EscapeFrom(zeros: nat, x: bytes): bytes
    decreases x
  {
    if x == [] then []
    else
      var b := x[0];
      if zeros >= 2 && b <= 3 then
        [3, b] + EscapeFrom(if b == 0 then 1 else 0, x[1..])
      else
        [b] + EscapeFrom(if b == 0 then zeros + 1 else 0, x[1..])
  }

  function UnescapeFrom(zeros: nat, y: bytes): bytes
    decreases y
  {
    if y == [] then []
    else if zeros >= 2 && y[0] == 3 then UnescapeFrom(0, y[1..])
    else [y[0]] + UnescapeFrom(if y[0] == 0 then zeros + 1 else 0, y[1..])
  }

  function Escape(x: bytes): bytes { EscapeFrom(0, x) }

  function Unescape(y: bytes): bytes { UnescapeFrom(0, y) }

  lemma {:induction false} EscapeRoundTripFrom(zeros: nat, x: bytes)
    requires zeros <= 2
    ensures UnescapeFrom(zeros, EscapeFrom(zeros, x)) == x
    decreases x
  {
    if x != [] {
      var b := x[0];
      var e := EscapeFrom(zeros, x);
      if zeros >= 2 && b <= 3 {
        EscapeRoundTripFrom(if b == 0 then 1 else 0, x[1..]);
        assert e[1..] == [b] + EscapeFrom(if b == 0 then 1 else 0, x[1..]);
        assert e[1..][1..] == EscapeFrom(if b == 0 then 1 else 0, x[1..]);
      } else {
        EscapeRoundTripFrom(if b == 0 then zeros + 1 else 0, x[1..]);
        assert e[1..] == EscapeFrom(if b == 0 then zeros + 1 else 0, x[1..]);
      }
    }
  }

  /** The receiver gets back what was escaped, for every byte string. */
  lemma EscapeRoundTrip(x: bytes)
    ensures Unescape(Escape(x)) == x
  {
    EscapeRoundTripFrom(0, x);
  }

  /** At position i there is none of 00 00 00, 00 00 01, 00 00 02, and a 00 00 03 is
      followed by a byte of at most 3. */
  predicate PreventedAt(y: bytes, i: nat)
    requires i + 2 < |y|
  {
    y[i] == 0 && y[i + 1] == 0 ==>
      y[i + 2] >= 3 && (y[i + 2] == 3 ==> i + 3 < |y| && y[i + 3] <= 3)
  }

  ghost predicate Prevented(y: bytes) {
    forall i: nat :: i + 2 < |y| ==> PreventedAt(y, i)
  }

  /** The same, read as a scan that has just passed `zeros` zero bytes. */
  predicate PreventedFrom(zeros: nat, y: bytes)
    decreases y
  {
    y != [] ==>
      && (zeros >= 2 ==> y[0] >= 3 && (y[0] == 3 ==> |y| > 1 && y[1] <= 3))
      && PreventedFrom(if y[0] == 0 then zeros + 1 else 0, y[1..])
  }

  lemma {:induction false} EscapePreventsFrom(zeros: nat, x: bytes)
    ensures PreventedFrom(zeros, EscapeFrom(zeros, x))
    decreases x
  {
    if x != [] {
      var b := x[0];
      var e := EscapeFrom(zeros, x);
      if zeros >= 2 && b <= 3 {
        EscapePreventsFrom(if b == 0 then 1 else 0, x[1..]);
        assert e[1..] == [b] + EscapeFrom(if b == 0 then 1 else 0, x[1..]);
        assert e[1..][1..] == EscapeFrom(if b == 0 then 1 else 0, x[1..]);
      } else {
        EscapePreventsFrom(if b == 0 then zeros + 1 else 0, x[1..]);
        assert e[1..] == EscapeFrom(if b == 0 then zeros + 1 else 0, x[1..]);
      }
    }
  }

  lemma {:induction false} PreventedScan(zeros: nat, y: bytes, i: nat)
    requires PreventedFrom(zeros, y) && i + 2 < |y|
    ensures PreventedAt(y, i)
    decreases i
  {
    var zeros' := if y[0] == 0 then zeros + 1 else 0;
    if i > 0 {
      PreventedScan(zeros', y[1..], i - 1);
    } else {
      assert PreventedFrom(if y[1] == 0 then zeros' + 1 else 0, y[1..][1..]);
    }
  }

  /** Nothing in an escaped string can be taken for a start code. */
  lemma EscapePrevents(x: bytes)
    ensures Prevented(Escape(x))
  {
    EscapePreventsFrom(0, x);
    forall i: nat | i + 2 < |Escape(x)|
      ensures PreventedAt(Escape(x), i)
    {
      PreventedScan(0, Escape(x), i);
    }
  }

  lemma {:induction false} UnescapeThenEscapeFrom(zeros: nat, y: bytes)
    requires PreventedFrom(zeros, y)
    ensures EscapeFrom(zeros, UnescapeFrom(zeros, y)) == y
    decreases y
  {
    if y != [] {
      if zeros >= 2 && y[0] == 3 {
        var b := y[1];
        assert y == [3, b] + y[1..][1..];
        UnescapeThenEscapeFrom(if b == 0 then 1 else 0, y[1..][1..]);
      } else {
        UnescapeThenEscapeFrom(if y[0] == 0 then zeros + 1 else 0, y[1..]);
      }
    }
  }

  /** The scan stands at position i and has just passed `zeros` zero bytes. */
  predicate ZerosBefore(y: bytes, i: nat, zeros: nat)
    requires i <= |y|
  {
    && (zeros >= 1 <==> i >= 1 && y[i - 1] == 0)
    && (zeros >= 2 <==> i >= 2 && y[i - 1] == 0 && y[i - 2] == 0)
  }

  lemma {:induction false} ScanPrevented(y: bytes, i: nat, zeros: nat)
    requires Prevented(y) && i <= |y| && ZerosBefore(y, i, zeros)
    ensures PreventedFrom(zeros, y[i..])
    decreases |y| - i
  {
    if i < |y| {
      if zeros >= 2 {
        assert PreventedAt(y, i - 2);
      }
      ScanPrevented(y, i + 1, if y[i] == 0 then zeros + 1 else 0);
      assert y[i..][1..] == y[i + 1..];
    }
  }

  /** Escaping reaches exactly the strings that keep the emulation prevention rule. */
  lemma EscapeImage(y: bytes)
    ensures (exists x :: Escape(x) == y) <==> Prevented(y)
  {
    if Prevented(y) {
      ScanPrevented(y, 0, 0);
      assert y[0..] == y;
      UnescapeThenEscapeFrom(0, y);
      assert Escape(Unescape(y)) == y;
    }
    forall x | Escape(x) == y
      ensures Prevented(y)
    {
      EscapePrevents(x);
    }
  }

  lemma {:induction false} EscapeKeepsLast(zeros: nat, x: bytes)
    requires x != []
    ensures EscapeFrom(zeros, x) != []
    ensures EscapeFrom(zeros, x)[|EscapeFrom(zeros, x)| - 1] == x[|x| - 1]
    decreases x
  {
    if |x| > 1 {
      var b := x[0];
      EscapeKeepsLast(if b != 0 then 0 else if zeros >= 2 then 1 else zeros + 1, x[1..]);
    }
  }

  method EscapeRBSP(rbsp: bytes) returns (out: bytes)
    ensures out == Escape(rbsp)
  {
    out := [];
    var zeroCount := 0;
    ghost var rest := Escape(rbsp);
    for i := 0 to |rbsp|
      invariant zeroCount >= 0
      invariant rest == EscapeFrom(zeroCount, rbsp[i..])
      invariant out + rest == Escape(rbsp)
    {
      var b := rbsp[i];
      assert rbsp[i..][1..] == rbsp[i + 1..];
      ghost var before, todo := out, rest;
      if zeroCount >= 2 && b <= 0x03 {
        out := out + [0x03];
        zeroCount := 0;
      }
      out := out + [b];
      if b == 0x00 {
        zeroCount := zeroCount + 1;
      } else {
        zeroCount := 0;
      }
      rest := EscapeFrom(zeroCount, rbsp[i + 1..]);
      assert out + rest == before + todo;
    }
  }

  method UnescapeRBSP(rbsp: bytes) returns (out: bytes)
    ensures out == Unescape(rbsp)
  {
    out := [];
    ghost var zeros: nat := 0;
    ghost var rest := Unescape(rbsp);
    for i := 0 to |rbsp|
      invariant ZerosBefore(rbsp, i, zeros)
      invariant rest == UnescapeFrom(zeros, rbsp[i..])
      invariant out + rest == Unescape(rbsp)
    {
      var b := rbsp[i];
      assert rbsp[i..][1..] == rbsp[i + 1..];
      ghost var before, todo := out, rest;
      if i >= 2 && b == 0x03 && rbsp[i - 1] == 0x00 && rbsp[i - 2] == 0x00 {
        zeros := 0;
        rest := UnescapeFrom(zeros, rbsp[i + 1..]);
        continue;
      }
      out := out + [b];
      zeros := if b == 0 then zeros + 1 else 0;
      rest := UnescapeFrom(zeros, rbsp[i + 1..]);
      assert out + rest == before + todo;
    }
  }
}
