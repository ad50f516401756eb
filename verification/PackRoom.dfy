/**
The room that switch_bitpack_in and switch_bitpack_out need, against the guard
with which they test for it.  Both return -1 only for a cursor past the end of
the buffer; the documentation promises it for a buffer that is full.
*/
module PackRoom {
  import opened Bits
  import opened BitStream
  import opened PackState
  import opened Powers
  import opened StreamLaws

  /* The test with which both functions refuse a call. */
  ghost predicate Refused(v: State) {
    v.cur > |v.buf|
  }

  // ---- Packing ----

  /* The last byte that packing one more codeword writes. */
  ghost function LastByte(v: State): nat {
    if v.bitsCur + v.frameBits > 8 then v.cur + 1 else v.cur
  }

  /* After any run of packing the next call is not refused.  It stays inside the
     buffer exactly when all codewords, the new one included, fit into it. */
  lemma PackRoomExactly(v: State, cs: seq<Byte>)
    requires v.Packs(cs)
    ensures !Refused(v)
    ensures LastByte(v) < |v.buf| <==> v.HasRoom()
    ensures LastByte(v) < |v.buf| <==> v.frameBits * (|cs| + 1) <= 8 * |v.buf|
  {
    hide Holds, Stream, AllFit;
    var s := Stream(v.mode, v.frameBits, cs);
    HoldsLength(v.mode, 8, v.buf[..v.cur], v.bitsCur, v.Pending(), s);
    StreamLength(v.mode, v.frameBits, cs);
    MulStep(v.frameBits, |cs|);
  }

  /* A buffer of one byte that holds a codeword of 8 bits is full, and the next
     call is not refused although it would write behind the buffer. */
  lemma FullPacker(mode: Mode, c: Byte)
    ensures var v := State([c], 1, 1, 8, 0, 8, 0, 0, 0, 0, mode);
            v.Packs([c]) && !Refused(v) && LastByte(v) == |v.buf|
  {
    hide State.Packs, Fits, Join;
    var v := State([0], 0, 0, 0, 0, 8, 0, 0, 0, 0, mode);
    EmptyPacker(mode);
    ByteFits(c);
    JoinEmpty(mode, 8, c);
    assert [0 as Byte][0 := c] == [c] && [] + [c] == [c];
    PackComplete(v, State([c], 1, 1, 8, 0, 8, 0, 0, 0, 0, mode), [], c);
  }

  lemma EmptyPacker(mode: Mode)
    ensures State([0], 0, 0, 0, 0, 8, 0, 0, 0, 0, mode).Packs([])
  {
    BlankState(State([0], 0, 0, 0, 0, 8, 0, 0, 0, 0, mode));
  }

  // ---- Unpacking ----

  /* What a call of switch_bitpack_out makes of the state before its loop: the
     codeword that the last byte began is completed. */
  ghost function Entered(v: State, b: Byte): State
    requires v.cur < |v.buf| && v.under + v.over <= 8
  {
    if v.over == 0 then v.(thisByte := b)
    else v.(buf := v.buf[v.cur := Join(v.mode, v.under, v.over, v.buf[v.cur], Head(v.mode, 8, v.over, b))],
            thisByte := b, bitsCur := v.over,
            cur := v.cur + 1, bytes := v.bytes + 1, over := 0, under := 0)
  }

  /* One turn of the loop, on a codeword inside the byte. */
  ghost function Turn(v: State, b: Byte): State
    requires v.cur < |v.buf| && v.bitsCur + v.frameBits <= 8
  {
    v.(buf := v.buf[v.cur := Or(v.buf[v.cur], Slice(v.mode, b, v.bitsCur, v.frameBits))],
       bitsCur := v.bitsCur + v.frameBits, cur := v.cur + 1, bytes := v.bytes + 1)
  }

  /* n such turns lead from v to v', all of them inside the cells. */
  ghost predicate Turned(v: State, b: Byte, n: nat, v': State)
    decreases n
  {
    if n == 0 then v == v'
    else v.cur < |v.buf| && v.bitsCur + v.frameBits <= 8 && Turned(Turn(v, b), b, n - 1, v')
  }

  /* The loop comes round with its cursor behind the last cell.  Both branches of
     its body touch the cell at the cursor. */
  ghost predicate LeavesCells(v: State, b: Byte) {
    exists n, v' :: Turned(v, b, n, v') && v'.bitsCur <= 8 && v'.cur >= |v'.buf|
  }

  lemma {:induction false} TurnedInside(v: State, ins: seq<Byte>, b: Byte, n: nat, v': State)
    requires v.Inside(ins, b) && Turned(v, b, n, v')
    ensures v'.Inside(ins, b) && |v'.buf| == |v.buf| && v'.frameBits == v.frameBits
    decreases n
  {
    hide State.Inside, Slice, Or;
    if n > 0 {
      UnpackWhole(v, Turn(v, b), ins, b);
      TurnedInside(Turn(v, b), ins, b, n - 1, v');
    }
  }

  /* Where the cells do not cover the byte, whole codewords follow until the
     cells are used up. */
  lemma WholeCodeword(v: State, ins: seq<Byte>, b: Byte)
    requires v.Inside(ins, b) && !v.Covers(|ins| + 1) && v.cur < |v.buf|
    ensures v.bitsCur + v.frameBits <= 8
  {
    hide Holds, Stream, Code;
    HoldsLength(v.mode, v.frameBits, v.buf[..v.cur], 0, 0, Stream(v.mode, 8, ins) + Code(v.mode, 8, b)[..v.bitsCur]);
    StreamLength(v.mode, 8, ins);
    MulAtMost(v.frameBits, v.cur + 1, |v.buf|);
    MulStep(v.frameBits, v.cur);
  }

  lemma {:induction false} CellsRunOut(v: State, ins: seq<Byte>, b: Byte) returns (n: nat, v': State)
    requires v.Inside(ins, b) && !v.Covers(|ins| + 1)
    ensures Turned(v, b, n, v') && v'.cur == |v'.buf| && v'.bitsCur <= 8
    decreases |v.buf| - v.cur
  {
    hide State.Inside, Slice, Or;
    InsideBounds(v, ins, b);
    if v.cur == |v.buf| {
      n, v' := 0, v;
    } else {
      WholeCodeword(v, ins, b);
      UnpackWhole(v, Turn(v, b), ins, b);
      n, v' := CellsRunOut(Turn(v, b), ins, b);
      n := n + 1;
    }
  }

  lemma InsideBounds(v: State, ins: seq<Byte>, b: Byte)
    requires v.Inside(ins, b)
    ensures v.cur <= |v.buf| && v.bitsCur <= 8
  {
  }

  lemma EnteredInside(v: State, ins: seq<Byte>, b: Byte)
    requires v.Unpacks(ins)
    ensures v.cur < |v.buf| && v.under + v.over <= 8
    ensures var u := Entered(v, b); u.Inside(ins, b) && |u.buf| == |v.buf| && u.frameBits == v.frameBits
  {
    UnpackFacts(v, ins);
    hide State.Unpacks, State.Inside, Join, Head;
    if v.over == 0 {
      UnpackStart(v, Entered(v, b), b);
    } else {
      UnpackCarry(v, Entered(v, b), ins, b);
    }
  }

  /* After any run of unpacking the next call is not refused, whatever the byte.
     Its loop stays inside the cells exactly when they are more than the
     codewords that are complete after it. */
  lemma UnpackRoomExactly(v: State, ins: seq<Byte>, b: Byte)
    requires v.Unpacks(ins)
    ensures !Refused(v) && v.cur < |v.buf| && v.under + v.over <= 8 && v.frameBits > 0
    ensures !LeavesCells(Entered(v, b), b) <==> v.Covers(|ins| + 1)
    ensures !LeavesCells(Entered(v, b), b) <==> 8 * (|ins| + 1) / v.frameBits < |v.buf|
  {
    UnpackFacts(v, ins);
    hide State.Unpacks, State.Inside, Entered, Turned;
    EnteredInside(v, ins, b);
    var u := Entered(v, b);
    DivBelow(8 * (|ins| + 1), v.frameBits, |v.buf|);
    if v.Covers(|ins| + 1) {
      forall n, v' | Turned(u, b, n, v')
        ensures v'.cur < |v'.buf|
      {
        TurnedInside(u, ins, b, n, v');
        InsideHasCell(v', ins, b);
      }
    } else {
      var n, v' := CellsRunOut(u, ins, b);
    }
  }

  lemma DivBelow(n: nat, w: nat, l: nat)
    requires w > 0
    ensures n / w < l <==> n < w * l
  {
    var q, r := n / w, n % w;
    assert n == w * q + r;
    if q < l {
      MulAtMost(w, q + 1, l);
      MulStep(w, q);
    } else {
      MulAtMost(w, l, q);
    }
  }

  /* One cell is enough for one codeword of 8 bits, but not for the call that
     unpacks it: it is not refused, and after one turn its loop comes round behind
     the cell. */
  lemma FullUnpacker(mode: Mode, b: Byte)
    ensures var v := State([0], 0, 0, 0, 0, 8, 0, 0, 0, 0, mode);
            v.Unpacks([]) && !Refused(v) && LeavesCells(Entered(v, b), b)
  {
    hide LeavesCells, Entered, State.Unpacks;
    var v := State([0], 0, 0, 0, 0, 8, 0, 0, 0, 0, mode);
    BlankState(v);
    UnpackRoomExactly(v, [], b);
  }

  // ---- Width 0 ----

  /* With codewords of no bits every turn is followed by another one of the same
     kind, until the cells are used up: from any state, after any number n of
     turns. */
  lemma {:induction false} ZeroWidthGoesOn(v: State, b: Byte, n: nat) returns (v': State)
    requires v.frameBits == 0 && v.bitsCur <= 8 && v.cur + n <= |v.buf|
    ensures Turned(v, b, n, v')
    ensures v'.cur == v.cur + n && v'.bitsCur == v.bitsCur && v'.bitsCur + v'.frameBits <= 8
    decreases n
  {
    if n == 0 {
      v' := v;
    } else {
      v' := ZeroWidthGoesOn(Turn(v, b), b, n - 1);
    }
  }
}
