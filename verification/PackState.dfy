/**
The fields of switch_bitpack_t as one value, the invariants that hold after any
run of packing or unpacking calls, and the steps that keep them.
*/
module PackState {
  import opened Bits
  import opened BitStream
  import opened CInt
  import opened StreamLaws
  import opened Powers

  datatype State = State(
    buf: seq<Byte>, cur: nat, bytes: nat, bitsTot: nat, bitsCur: nat, frameBits: nat,
    shiftBy: nat, thisByte: Byte, under: nat, over: nat, mode: Mode)
  {
    /* The word that is being filled; nothing has been filled past the end. */
    ghost function Pending(): Byte {
      if cur < |buf| then buf[cur] else 0
    }

    ghost predicate BlankFrom(k: nat) {
      forall i :: k <= i < |buf| ==> buf[i] == 0
    }

    /* Packing the codewords cs leads to this state. */
    ghost predicate Packs(cs: seq<Byte>) {
      && 1 <= frameBits <= 8 && AllFit(frameBits, cs)
      && cur == bytes && bitsCur < 8 && 8 * cur + bitsCur <= 8 * |buf|
      && bitsTot == ToUint32(8 * bytes + bitsCur)
      && over == under == 0 && thisByte == 0
      && shiftBy == (if mode.RFC3551? then bitsCur else 0)
      && BlankFrom(cur + 1)
      && Holds(mode, 8, buf[..cur], bitsCur, Pending(), Stream(mode, frameBits, cs))
    }

    /* There is room for one more codeword. */
    ghost predicate HasRoom() {
      8 * cur + bitsCur + frameBits <= 8 * |buf|
    }

    /* Unpacking the bytes ins leads to this state: every whole codeword of
       their stream is in its cell, and the cell at cur holds the `under` bits
       of the next one that have arrived. */
    ghost predicate Unpacks(ins: seq<Byte>) {
      && 1 <= frameBits <= 8
      && cur == bytes < |buf|
      && bitsTot == shiftBy == 0
      && (if ins == [] then over == under == bitsCur == 0 && thisByte == 0
          else 1 <= over && over + under == frameBits && bitsCur + under == 8 && thisByte == ins[|ins| - 1])
      && BlankFrom(cur + 1)
      && Holds(mode, frameBits, buf[..cur], under, Pending(), Stream(mode, 8, ins))
    }

    /* The cells cover n bytes and the start of one more codeword. */
    ghost predicate Covers(n: nat) {
      8 * n < frameBits * |buf|
    }

    /* Between two codewords, inside the byte b that follows the bytes ins. */
    ghost predicate Inside(ins: seq<Byte>, b: Byte) {
      && 1 <= frameBits <= 8
      && cur == bytes <= |buf| && bitsCur <= 8 && thisByte == b
      && bitsTot == shiftBy == 0
      && over == under == 0
      && BlankFrom(cur)
      && Holds(mode, frameBits, buf[..cur], 0, 0, Stream(mode, 8, ins) + Code(mode, 8, b)[..bitsCur])
    }
  }

  /* What Init leaves has packed nothing and unpacked nothing. */
  lemma BlankState(v: State)
    requires v.buf != [] && v.BlankFrom(0) && 1 <= v.frameBits <= 8
    requires v.cur == v.bytes == v.bitsTot == v.bitsCur == v.shiftBy == v.under == v.over == 0 && v.thisByte == 0
    ensures v.Packs([]) && v.Unpacks([])
  {
    hide Holds;
    HoldsNothing(v.mode, 8);
    HoldsNothing(v.mode, v.frameBits);
    assert v.buf[..0] == [];
    assert Stream(v.mode, v.frameBits, []) == [] && Stream(v.mode, 8, []) == [];
  }

  // ---- Packing ----

  /* What a packing call relies on. */
  lemma PackFacts(v: State, cs: seq<Byte>)
    requires v.Packs(cs)
    ensures 1 <= v.frameBits <= 8 && v.bitsCur < 8 && v.bytes == v.cur <= |v.buf|
    ensures v.shiftBy == if v.mode.RFC3551? then v.bitsCur else 0
    ensures v.HasRoom() ==> 8 * v.cur + v.bitsCur + v.frameBits <= 8 * |v.buf|
  {
  }

  lemma PackFill(v: State, v': State, cs: seq<Byte>, c: Byte)
    requires v.Packs(cs) && v.HasRoom() && Fits(v.frameBits, c) && v.bitsCur + v.frameBits < 8
    requires v' == v.(
               buf := v.buf[v.cur := Join(v.mode, v.bitsCur, v.frameBits, v.buf[v.cur], c)],
               bitsTot := ToUint32(v.bitsTot + v.frameBits),
               bitsCur := v.bitsCur + v.frameBits,
               shiftBy := if v.mode.RFC3551? then v.shiftBy + v.frameBits else v.shiftBy)
    ensures v'.Packs(cs + [c])
  {
    hide Holds, Fits, Join, Stream, Code;
    WrapAdd(8 * v.bytes + v.bitsCur, v.frameBits);
    StreamAppend(v.mode, v.frameBits, cs, c);
    FillStep(v.mode, 8, v.buf[..v.cur], v.bitsCur, v.buf[v.cur], Stream(v.mode, v.frameBits, cs), v.frameBits, c);
    assert v'.buf[..v.cur] == v.buf[..v.cur];
  }

  lemma PackComplete(v: State, v': State, cs: seq<Byte>, c: Byte)
    requires v.Packs(cs) && v.HasRoom() && Fits(v.frameBits, c) && v.bitsCur + v.frameBits == 8
    requires v' == v.(
               buf := v.buf[v.cur := Join(v.mode, v.bitsCur, v.frameBits, v.buf[v.cur], c)],
               bitsTot := ToUint32(v.bitsTot + v.frameBits),
               cur := v.cur + 1, bytes := v.bytes + 1, bitsCur := 0, shiftBy := 0)
    ensures v'.Packs(cs + [c])
  {
    hide Holds, Fits, Join, Stream, Code;
    WrapAdd(8 * v.bytes + v.bitsCur, v.frameBits);
    var x := Join(v.mode, v.bitsCur, v.frameBits, v.buf[v.cur], c);
    StreamAppend(v.mode, v.frameBits, cs, c);
    FillStep(v.mode, 8, v.buf[..v.cur], v.bitsCur, v.buf[v.cur], Stream(v.mode, v.frameBits, cs), v.frameBits, c);
    Advance(v.mode, 8, v.buf[..v.cur], x, Stream(v.mode, v.frameBits, cs + [c]));
    assert v'.buf[..v'.cur] == v.buf[..v.cur] + [x];
  }

  lemma PackSpill(v: State, v': State, cs: seq<Byte>, c: Byte)
    requires v.Packs(cs) && v.HasRoom() && Fits(v.frameBits, c) && 8 < v.bitsCur + v.frameBits
    requires var rem := 8 - v.bitsCur;
             var nxt := v.frameBits - rem;
             var a := Join(v.mode, v.bitsCur, rem, v.buf[v.cur], Head(v.mode, v.frameBits, rem, c));
             var b := Or(v.buf[v.cur + 1], Tail(v.mode, v.frameBits, rem, c));
             v' == v.(
               buf := v.buf[v.cur := a][v.cur + 1 := b],
               bitsTot := ToUint32(v.bitsTot + v.frameBits),
               cur := v.cur + 1, bytes := v.bytes + 1, bitsCur := nxt,
               shiftBy := if v.mode.RFC3551? then nxt else v.shiftBy)
    ensures v'.Packs(cs + [c])
  {
    hide Holds, Fits, Join, Head, Tail, Or, Stream, Code;
    WrapAdd(8 * v.bytes + v.bitsCur, v.frameBits);
    var rem := 8 - v.bitsCur;
    StreamAppend(v.mode, v.frameBits, cs, c);
    SpillStep(v.mode, v.buf[..v.cur], v.bitsCur, v.buf[v.cur], Stream(v.mode, v.frameBits, cs), v.frameBits, c);
    OrZero(Tail(v.mode, v.frameBits, rem, c));
    assert v'.buf[..v'.cur] ==
           v.buf[..v.cur] + [Join(v.mode, v.bitsCur, rem, v.buf[v.cur], Head(v.mode, v.frameBits, rem, c))];
  }

  /* Finishing fills the last byte up with zero bits: none are needed in
     RFC3551 mode, a shift in AAL2 mode. */
  lemma PackDone(v: State, v': State, cs: seq<Byte>)
    requires v.Packs(cs) && 0 < v.bitsCur
    requires v' == v.(
               bytes := v.bytes + 1,
               buf := v.buf[v.cur := if v.mode.RFC3551? then v.buf[v.cur] else Shl(v.buf[v.cur], 8 - v.bitsCur)])
    ensures IsPacking(v.mode, v.frameBits, cs, v'.buf[..v'.bytes])
  {
    hide Holds, Fits, Stream, Code, Shl, Or;
    var p, x, s := v.bitsCur, v.buf[v.cur], Stream(v.mode, v.frameBits, cs);
    ZeroFits(8 - p);
    FillStep(v.mode, 8, v.buf[..v.cur], p, x, s, 8 - p, 0);
    CodeOfZero(v.mode, 8 - p);
    ShlZero(p);
    OrNothing(x);
    OrNothing(Shl(x, 8 - p));
    assert v'.buf[v.cur] == Join(v.mode, p, 8 - p, x, 0);
    Advance(v.mode, 8, v.buf[..v.cur], v'.buf[v.cur], s + Zeros(8 - p));
    assert v'.buf[..v'.bytes] == v.buf[..v.cur] + [v'.buf[v.cur]];
    HoldsPacking(v.mode, v.frameBits, cs, v'.buf[..v'.bytes], 8 - p);
  }

  lemma HoldsPacking(mode: Mode, w: nat, cs: seq<Byte>, bytes: seq<Byte>, pad: nat)
    requires w <= 8 && pad < 8
    requires Holds(mode, 8, bytes, 0, 0, Stream(mode, w, cs) + Zeros(pad))
    ensures IsPacking(mode, w, cs, bytes)
  {
    hide Stream;
    assert Code(mode, 0, 0) == [];
  }

  lemma PackDoneAligned(v: State, cs: seq<Byte>)
    requires v.Packs(cs) && v.bitsCur == 0
    ensures IsPacking(v.mode, v.frameBits, cs, v.buf[..v.bytes])
    ensures v.BlankFrom(v.bytes)
  {
    hide Stream, Holds, Fits, Code, IsPacking;
    var s := Stream(v.mode, v.frameBits, cs);
    PendingNone(v.mode, v.buf[..v.cur], v.Pending(), s);
    assert s + Zeros(0) == s;
    HoldsPacking(v.mode, v.frameBits, cs, v.buf[..v.cur], 0);
  }

  lemma PendingNone(mode: Mode, front: seq<Byte>, x: Byte, s: seq<bool>)
    requires Holds(mode, 8, front, 0, x, s)
    ensures x == 0
  {
    hide Stream, Code;
    FitsNone(x);
  }

  /* After every call, finished or not, an RFC3551 buffer read as one
     little-endian number is the sum of the codewords, each one weighted by its
     place in the stream. */
  lemma PacksLittleEndian(v: State, cs: seq<Byte>)
    requires v.Packs(cs) && v.mode.RFC3551?
    ensures LittleEndian(8, v.buf) == LittleEndian(v.frameBits, cs)
  {
    hide Holds, Stream, Fits, Code, LittleEndian, IsPacking;
    var k := if v.bitsCur == 0 then v.cur else v.cur + 1;
    if v.bitsCur == 0 {
      PackDoneAligned(v, cs);
    } else {
      PackDone(v, v.(bytes := v.bytes + 1), cs);
    }
    PackedLittleEndian(v.frameBits, cs, v.buf[..k]);
    BlankTail(v.buf, k);
  }

  lemma {:induction false} BlankTail(buf: seq<Byte>, k: nat)
    requires k <= |buf| && forall i :: k <= i < |buf| ==> buf[i] == 0
    ensures LittleEndian(8, buf) == LittleEndian(8, buf[..k])
    decreases |buf|
  {
    if k == |buf| {
      assert buf[..k] == buf;
    } else {
      var n := |buf| - 1;
      BlankTail(buf[..n], k);
      assert buf[..n][..k] == buf[..k];
    }
  }

  /* The codewords determine the whole state. */
  lemma PacksDeterminesState(v: State, v': State, cs: seq<Byte>)
    requires v.Packs(cs) && v'.Packs(cs)
    requires v.mode == v'.mode && v.frameBits == v'.frameBits && |v.buf| == |v'.buf|
    ensures v == v'
  {
    hide Holds, Stream, Fits, Code;
    var s := Stream(v.mode, v.frameBits, cs);
    HoldsLength(v.mode, 8, v.buf[..v.cur], v.bitsCur, v.Pending(), s);
    HoldsLength(v.mode, 8, v'.buf[..v'.cur], v'.bitsCur, v'.Pending(), s);
    HoldsInjective(v.mode, 8, v.buf[..v.cur], v.bitsCur, v.Pending(), v'.buf[..v.cur], v'.Pending(), s);
    SameBuffer(v, v');
  }

  lemma SameBuffer(v: State, v': State)
    requires |v.buf| == |v'.buf| && v.cur == v'.cur <= |v.buf|
    requires v.buf[..v.cur] == v'.buf[..v.cur] && v.Pending() == v'.Pending()
    requires v.BlankFrom(v.cur + 1) && v'.BlankFrom(v.cur + 1)
    ensures v.buf == v'.buf
  {
    forall i | 0 <= i < |v.buf|
      ensures v.buf[i] == v'.buf[i]
    {
      if i < v.cur {
        assert v.buf[i] == v.buf[..v.cur][i];
      }
    }
  }

  // ---- Unpacking ----

  /* What an unpacking call relies on. */
  lemma UnpackFacts(v: State, ins: seq<Byte>)
    requires v.Unpacks(ins)
    ensures 1 <= v.frameBits <= 8 && v.cur < |v.buf|
    ensures if v.over == 0 then ins == [] && v.bitsCur == v.under == 0 else v.over + v.under == v.frameBits
  {
  }

  lemma InsideFacts(v: State, ins: seq<Byte>, b: Byte)
    requires v.Inside(ins, b)
    ensures 1 <= v.frameBits <= 8 && v.bitsCur <= 8 && v.thisByte == b
    ensures v.cur < |v.buf| ==> v.buf[v.cur] == 0
  {
  }

  /* The first bits of b complete the codeword that was pending. */
  lemma UnpackCarry(v: State, v': State, ins: seq<Byte>, b: Byte)
    requires v.Unpacks(ins) && 0 < v.over
    requires v' == v.(
               buf := v.buf[v.cur := Join(v.mode, v.under, v.over, v.buf[v.cur], Head(v.mode, 8, v.over, b))],
               thisByte := b, bitsCur := v.over,
               cur := v.cur + 1, bytes := v.bytes + 1, over := 0, under := 0)
    ensures v'.Inside(ins, b)
  {
    hide Holds, Fits, Stream, Code, Join, Head;
    var s, h := Stream(v.mode, 8, ins), Head(v.mode, 8, v.over, b);
    var x := Join(v.mode, v.under, v.over, v.buf[v.cur], h);
    ByteFits(b);
    HeadTailCode(v.mode, 8, v.over, b);
    assert Code(v.mode, v.over, h) == Code(v.mode, 8, b)[..v.over];
    FillStep(v.mode, v.frameBits, v.buf[..v.cur], v.under, v.buf[v.cur], s, v.over, h);
    Advance(v.mode, v.frameBits, v.buf[..v.cur], x, s + Code(v.mode, v.over, h));
    assert v'.buf[..v'.cur] == v.buf[..v.cur] + [x];
  }

  lemma UnpackStart(v: State, v': State, b: Byte)
    requires v.Unpacks([])
    requires v' == v.(thisByte := b)
    ensures v'.Inside([], b)
  {
    hide Holds, Fits;
    assert v.buf[..0] == [];
    HoldsNothing(v.mode, v.frameBits);
    HoldsLength(v.mode, v.frameBits, v.buf[..v.cur], 0, v.Pending(), []);
    assert v.cur == 0 by { MulZero(v.frameBits, v.cur); }
    HoldsInjective(v.mode, v.frameBits, [], 0, 0, [], v.Pending(), []);
  }

  lemma MulZero(w: nat, n: nat)
    requires 1 <= w && w * n == 0
    ensures n == 0
  {
  }

  /* A codeword that lies inside b. */
  lemma UnpackWhole(v: State, v': State, ins: seq<Byte>, b: Byte)
    requires v.Inside(ins, b) && v.cur < |v.buf| && v.bitsCur + v.frameBits <= 8
    requires v' == v.(
               buf := v.buf[v.cur := Or(v.buf[v.cur], Slice(v.mode, b, v.bitsCur, v.frameBits))],
               bitsCur := v.bitsCur + v.frameBits, cur := v.cur + 1, bytes := v.bytes + 1)
    ensures v'.Inside(ins, b)
  {
    hide Holds, Fits, Stream, Code, Slice, Or, Join;
    var i, w, s := v.bitsCur, v.frameBits, Stream(v.mode, 8, ins);
    var c, k := Slice(v.mode, b, i, w), Code(v.mode, 8, b);
    SliceCode(v.mode, b, i, w);
    OrZero(c);
    JoinEmpty(v.mode, w, c);
    FillStep(v.mode, w, v.buf[..v.cur], 0, 0, s + k[..i], w, c);
    assert s + k[..i] + k[i..i + w] == s + k[..i + w];
    Advance(v.mode, w, v.buf[..v.cur], c, s + k[..i + w]);
    assert v'.buf[..v'.cur] == v.buf[..v.cur] + [c];
  }

  /* The last bits of b start a codeword. */
  lemma UnpackRest(v: State, v': State, ins: seq<Byte>, b: Byte)
    requires v.Inside(ins, b) && v.cur < |v.buf| && v.bitsCur + v.frameBits > 8
    requires v' == v.(
               buf := v.buf[v.cur := Tail(v.mode, 8, v.bitsCur, b)],
               over := v.bitsCur + v.frameBits - 8, under := 8 - v.bitsCur)
    ensures v'.Unpacks(ins + [b])
  {
    hide Holds, Fits, Stream, Code, Tail, Head, Join;
    var i, s, k := v.bitsCur, Stream(v.mode, 8, ins), Code(v.mode, 8, b);
    var t := Tail(v.mode, 8, i, b);
    ByteFits(b);
    HeadTailCode(v.mode, 8, i, b);
    JoinEmpty(v.mode, 8 - i, t);
    FillStep(v.mode, v.frameBits, v.buf[..v.cur], 0, 0, s + k[..i], 8 - i, t);
    assert s + k[..i] + k[i..] == s + k;
    StreamAppend(v.mode, 8, ins, b);
    assert v'.buf[..v.cur] == v.buf[..v.cur];
  }

  lemma JoinEmpty(mode: Mode, w: nat, c: Byte)
    requires w <= 8
    ensures Join(mode, 0, w, 0, c) == c
  {
    ShlZero(w);
    OrZero(c);
  }

  /* Cells that cover the bytes have one left for the codeword at hand. */
  lemma InsideHasCell(v: State, ins: seq<Byte>, b: Byte)
    requires v.Inside(ins, b) && v.Covers(|ins| + 1)
    ensures v.cur < |v.buf|
  {
    hide Holds, Stream, Code;
    HoldsLength(v.mode, v.frameBits, v.buf[..v.cur], 0, 0, Stream(v.mode, 8, ins) + Code(v.mode, 8, b)[..v.bitsCur]);
    StreamLength(v.mode, 8, ins);
    MulCancel(v.frameBits, v.cur, |v.buf|);
  }

  /* After B bytes the complete cells are the whole codewords of their stream,
     8 * B / w of them. */
  lemma UnpacksCells(v: State, ins: seq<Byte>)
    requires v.Unpacks(ins)
    ensures IsUnpacking(v.mode, v.frameBits, ins, v.buf[..v.cur])
    ensures v.bytes == 8 * |ins| / v.frameBits
  {
    hide Stream, Fits, Code;
    assert v.under < v.frameBits;
    UnpackingUnique(v.mode, v.frameBits, ins, v.buf[..v.cur], v.buf[..v.cur]);
  }

  /* The bytes determine the whole state; in particular nothing that is read
     beyond the end of the mask table shows up in it. */
  lemma UnpacksDeterminesState(v: State, v': State, ins: seq<Byte>)
    requires v.Unpacks(ins) && v'.Unpacks(ins)
    requires v.mode == v'.mode && v.frameBits == v'.frameBits && |v.buf| == |v'.buf|
    ensures v == v'
  {
    hide Holds, Stream, Fits, Code;
    var s := Stream(v.mode, 8, ins);
    UnpacksCells(v, ins);
    UnpacksCells(v', ins);
    HoldsLength(v.mode, v.frameBits, v.buf[..v.cur], v.under, v.Pending(), s);
    HoldsLength(v.mode, v.frameBits, v'.buf[..v'.cur], v'.under, v'.Pending(), s);
    HoldsInjective(v.mode, v.frameBits, v.buf[..v.cur], v.under, v.Pending(), v'.buf[..v.cur], v'.Pending(), s);
    SameBuffer(v, v');
  }
}
