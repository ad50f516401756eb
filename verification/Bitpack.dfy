/**
The bit packer and unpacker of switch_bitpack.h.  One object serves for both:
In and Done pack codewords of frameBits bits into the bytes of buf, Out unpacks
bytes into the cells of buf.
*/
module Bitpack {
  import opened Bits
  import opened BitStream
  import opened CInt
  import opened StreamLaws
  import opened PackState
  import opened Powers

  class Bitpack {
    var buf: array<Byte>
    var cur: nat        // the pointer into buf, as an index
    var bytes: nat
    var bitsTot: nat
    var bitsCur: nat
    var frameBits: nat
    var shiftBy: nat
    var thisByte: Byte
    var under: nat
    var over: nat
    var mode: Mode

    /* A structure that has not been through Init yet. */
    constructor ()
      ensures fresh(buf) && buf.Length == 0
    {
      buf := new Byte[0];
    }

    ghost function Value(): State
      reads this, buf
    {
      State(buf[..], cur, bytes, bitsTot, bitsCur, frameBits, shiftBy, thisByte, under, over, mode)
    }

    /* switch_bitpack_init.  It accepts a width of 0, for which Out would never
       leave its loop. */
    method Init(bitlen: nat, b: array?<Byte>, m: Mode) returns (r: int)
      modifies this, b
      ensures r == if bitlen > 8 || b == null || b.Length == 0 then -1 else 0
      ensures r == 0 ==> buf == b && frameBits == bitlen && mode == m
      ensures r == 0 && bitlen >= 1 ==> Value().Packs([]) && Value().Unpacks([])
      ensures r == -1 ==> unchanged(this) && (b != null ==> unchanged(b))
    {
      if bitlen > 8 || b == null || b.Length == 0 {
        return -1;
      }
      Clear(b);
      cur, bytes, bitsTot, bitsCur, shiftBy, thisByte, under, over := 0, 0, 0, 0, 0, 0, 0, 0;
      frameBits, buf, mode := bitlen, b, m;
      hide State.Packs, State.Unpacks;
      if bitlen >= 1 {
        BlankState(Value());
      }
      return 0;
    }

    /* memset(buf, 0, buflen) */
    static method Clear(b: array<Byte>)
      modifies b
      ensures forall k :: 0 <= k < b.Length ==> b[k] == 0
    {
      for i := 0 to b.Length
        invariant forall k :: 0 <= k < i ==> b[k] == 0
      {
        b[i] := 0;
      }
    }

    /* switch_bitpack_in.  The guard tests for a cursor past the end of the
       buffer, so room for the codeword is the caller's business. */
    method In(c: Byte, ghost cs: seq<Byte>) returns (r: int)
      requires cur <= buf.Length ==> Value().Packs(cs) && Value().HasRoom() && Fits(frameBits, c)
      modifies this, buf
      ensures buf == old(buf) && frameBits == old(frameBits) && mode == old(mode)
      ensures old(cur) > buf.Length ==> r == -1 && unchanged(this) && unchanged(buf)
      ensures old(cur) <= buf.Length ==> r == 0 && Value().Packs(cs + [c])
    {
      hide State.Packs, Fits, Or, Shl, Shr, MaskLow;
      if cur <= buf.Length {
        PackFacts(Value(), cs);
      }
      var next := bitsCur + frameBits;
      if cur > buf.Length {
        return -1;
      }
      ghost var v := Value();
      if next > 8 {
        InSpill(c, cs);
      } else {
        bitsTot := ToUint32(bitsTot + frameBits);
        if mode.RFC3551? {
          buf[cur] := Or(buf[cur], Shl(c, shiftBy));
          shiftBy := shiftBy + frameBits;
        } else {
          buf[cur] := Or(Shl(buf[cur], frameBits), c);
        }
        if next == 8 {
          cur := cur + 1;
          bytes := bytes + 1;
          bitsCur, shiftBy := 0, 0;
          PackComplete(v, Value(), cs, c);
        } else {
          bitsCur := next;
          PackFill(v, Value(), cs, c);
        }
      }
      return 0;
    }

    /* The branch of In for a codeword that crosses into the next byte. */
    method InSpill(c: Byte, ghost cs: seq<Byte>)
      requires Value().Packs(cs) && Value().HasRoom() && Fits(frameBits, c) && 8 < bitsCur + frameBits
      modifies this, buf
      ensures buf == old(buf) && frameBits == old(frameBits) && mode == old(mode)
      ensures Value().Packs(cs + [c])
    {
      hide State.Packs, Fits, Or, Shl, Shr, MaskLow;
      PackFacts(Value(), cs);
      ghost var v := Value();
      bitsTot := ToUint32(bitsTot + frameBits);
      var rem := 8 - bitsCur;
      var nxt := frameBits - rem;
      if mode.RFC3551? {
        var a, b := MaskLow(c, rem), Shr(c, rem);
        Spill(Or(buf[cur], Shl(a, shiftBy)), b);
        bitsCur, shiftBy := nxt, nxt;
      } else {
        var a, b := Shr(c, nxt), MaskLow(c, nxt);
        Spill(Or(Shl(buf[cur], rem), a), b);
        bitsCur := nxt;
      }
      bytes := bytes + 1;
      PackSpill(v, Value(), cs, c);
    }

    /* Completes the byte at the cursor and starts the next one. */
    method Spill(a: Byte, b: Byte)
      requires cur + 1 < buf.Length
      modifies `cur, buf
      ensures cur == old(cur) + 1
      ensures buf[..] == old(buf[..])[cur - 1 := a][cur := Or(old(buf[cur + 1]), b)]
    {
      hide Or;
      buf[cur] := a;
      cur := cur + 1;
      buf[cur] := Or(buf[cur], b);
    }

    /* switch_bitpack_done, on a packer: nothing is pending in `over`. */
    method Done(ghost cs: seq<Byte>) returns (r: int)
      requires Value().Packs(cs)
      modifies `bytes, buf
      ensures r == 0
      ensures bytes <= buf.Length && IsPacking(mode, frameBits, cs, buf[..bytes])
      ensures forall k :: bytes <= k < buf.Length ==> buf[k] == 0
    {
      hide Holds, Shl, IsPacking;
      ghost var v := Value();
      if bitsCur != 0 && bitsCur < 8 {
        bytes := bytes + 1;
        if mode.AAL2? {
          buf[cur] := Shl(buf[cur], 8 - bitsCur);
        }
        PackDone(v, Value(), cs);
        assert Value().buf[..bytes] == buf[..bytes];
      } else {
        PackDoneAligned(v, cs);
        assert v.buf[..bytes] == buf[..bytes];
      }
      return 0;
    }

    /* pack_check_over, as Out calls it. */
    method CheckOver(ghost ins: seq<Byte>, ghost v: State, beyond: Byte)
      requires v.Unpacks(ins)
      requires Value() == v.(bitsCur := 0, thisByte := thisByte)
      modifies this, buf
      ensures buf == old(buf) && frameBits == old(frameBits) && mode == old(mode) && thisByte == old(thisByte)
      ensures Value().Inside(ins, thisByte)
    {
      hide State.Unpacks, State.Inside, Or, Shl, Shr, MaskLow, MaskHigh;
      UnpackFacts(v, ins);
      var b := thisByte;
      if over != 0 {
        bitsCur := over;
        if mode.RFC3551? {
          b := Shl(MaskLow(b, over), under);
          buf[cur] := Or(buf[cur], b);
          cur := cur + 1;
        } else {
          var mask := 8 - over;
          ShrMaskHigh(b, mask, beyond);
          b := Shr(MaskHigh(b, mask, beyond), mask);
          buf[cur] := Or(Shl(buf[cur], over), b);
          cur := cur + 1;
        }
        bytes := bytes + 1;
        over, under := 0, 0;
        UnpackCarry(v, Value(), ins, thisByte);
      } else {
        UnpackStart(v, Value(), thisByte);
      }
    }

    /* switch_bitpack_out.  `beyond` is what the mask table yields when it is
       read one past its end, which happens whenever a codeword ends with the
       byte. */
    method Out(b: Byte, ghost ins: seq<Byte>, beyond: Byte) returns (r: int)
      requires cur <= buf.Length ==> Value().Unpacks(ins) && Value().Covers(|ins| + 1)
      modifies this, buf
      ensures buf == old(buf) && frameBits == old(frameBits) && mode == old(mode)
      ensures old(cur) > buf.Length ==> r == -1 && unchanged(this) && unchanged(buf)
      ensures old(cur) <= buf.Length ==> r == 0 && Value().Unpacks(ins + [b])
    {
      hide State.Unpacks, State.Inside;
      if cur > buf.Length {
        return -1;
      }
      ghost var v := Value();
      bitsCur, thisByte := 0, b;
      CheckOver(ins, v, beyond);
      InsideFacts(Value(), ins, b);
      while bitsCur <= 8
        invariant buf == old(buf) && frameBits == old(frameBits) && mode == old(mode)
        invariant Value().Inside(ins, b) && bitsCur <= 8
        decreases 8 - bitsCur
      {
        InsideFacts(Value(), ins, b);
        InsideHasCell(Value(), ins, b);
        var next := bitsCur + frameBits;
        if next > 8 {
          OutRest(b, ins, beyond);
          break;
        }
        OutWhole(b, ins);
        InsideFacts(Value(), ins, b);
      }
      return 0;
    }

    /* The rest of the loop body, for a codeword inside the byte. */
    method OutWhole(b: Byte, ghost ins: seq<Byte>)
      requires Value().Inside(ins, b) && cur < buf.Length && bitsCur + frameBits <= 8
      modifies this, buf
      ensures buf == old(buf) && frameBits == old(frameBits) && mode == old(mode)
      ensures bitsCur == old(bitsCur) + frameBits && Value().Inside(ins, b)
    {
      hide State.Inside, Or, Shr, MaskLow;
      InsideFacts(Value(), ins, b);
      ghost var v := Value();
      var next := bitsCur + frameBits;
      if mode.RFC3551? {
        buf[cur] := Or(buf[cur], MaskLow(Shr(thisByte, bitsCur), frameBits));
        cur := cur + 1;
      } else {
        buf[cur] := Or(buf[cur], MaskLow(Shr(thisByte, 8 - next), frameBits));
        cur := cur + 1;
      }
      bitsCur := next;
      bytes := bytes + 1;
      UnpackWhole(v, Value(), ins, b);
    }

    /* The branch of the loop for a codeword that the byte does not complete. */
    method OutRest(b: Byte, ghost ins: seq<Byte>, beyond: Byte)
      requires Value().Inside(ins, b) && cur < buf.Length && bitsCur + frameBits > 8
      modifies this, buf
      ensures buf == old(buf) && frameBits == old(frameBits) && mode == old(mode)
      ensures Value().Unpacks(ins + [b])
    {
      hide State.Unpacks, State.Inside, Or, Shl, Shr, MaskLow, MaskHigh;
      InsideFacts(Value(), ins, b);
      ghost var v := Value();
      over := bitsCur + frameBits - 8;
      under := frameBits - over;
      if mode.RFC3551? {
        var mask := 8 - under;
        ShrMaskHigh(b, mask, beyond);
        var underIn := Shr(MaskHigh(thisByte, mask, beyond), mask);
        OrZero(underIn);
        buf[cur] := Or(buf[cur], underIn);
      } else {
        var mask := under;
        var underIn := MaskLow(thisByte, mask);
        ShlZero(mask);
        OrZero(underIn);
        buf[cur] := Or(Shl(buf[cur], mask), underIn);
      }
      UnpackRest(v, Value(), ins, b);
    }
  }

  /* A whole run: cs is packed into a fresh buffer, and the bytes that result
     are given to a fresh unpacker of the same width and mode, whatever lies
     beyond the mask table. */
  method PackThenUnpack(w: nat, mode: Mode, cs: seq<Byte>, beyond: Byte) returns (packed: seq<Byte>, cells: seq<Byte>)
    requires 1 <= w <= 8 && AllFit(w, cs)
    ensures IsPacking(mode, w, cs, packed) && |packed| == (w * |cs| + 7) / 8
    ensures IsUnpacking(mode, w, packed, cells)
    ensures |cs| <= |cells| && cells == cs + seq(|cells| - |cs|, i => 0) && w * (|cells| - |cs|) < 8
  {
    hide Stream, IsPacking, IsUnpacking, Fits;
    packed := Pack(w, mode, cs);
    PackingUnique(mode, w, cs, packed, packed);
    cells := Unpack(w, mode, packed, beyond);
    RoundTrip(mode, w, cs, packed, cells);
  }

  /* A packing run. */
  method Pack(w: nat, mode: Mode, cs: seq<Byte>) returns (packed: seq<Byte>)
    requires 1 <= w <= 8 && AllFit(w, cs)
    ensures IsPacking(mode, w, cs, packed)
  {
    hide State.Packs, IsPacking, Fits;
    var pack := new Bitpack();
    var store := new Byte[|cs| + 1];
    var r := pack.Init(w, store, mode);
    for i := 0 to |cs|
      invariant pack.buf == store && fresh(store) && fresh(pack) && pack.mode == mode && pack.frameBits == w
      invariant pack.Value().Packs(cs[..i])
    {
      PackRoom(pack.Value(), cs[..i]);
      PackFacts(pack.Value(), cs[..i]);
      r := pack.In(cs[i], cs[..i]);
      assert cs[..i] + [cs[i]] == cs[..i + 1];
    }
    assert cs[..|cs|] == cs;
    r := pack.Done(cs);
    packed := pack.buf[..pack.bytes];
  }

  lemma PackRoom(v: State, cs: seq<Byte>)
    requires v.Packs(cs) && |cs| < |v.buf|
    ensures v.HasRoom()
  {
    hide Holds, Stream;
    HoldsLength(v.mode, 8, v.buf[..v.cur], v.bitsCur, v.Pending(), Stream(v.mode, v.frameBits, cs));
    StreamLength(v.mode, v.frameBits, cs);
    MulAtMost(|cs|, v.frameBits, 8);
    MulCommutes(v.frameBits, |cs|);
  }

  /* An unpacking run. */
  method Unpack(w: nat, mode: Mode, ins: seq<Byte>, beyond: Byte) returns (cells: seq<Byte>)
    requires 1 <= w <= 8
    ensures IsUnpacking(mode, w, ins, cells)
  {
    hide State.Unpacks, IsUnpacking;
    var unpack := new Bitpack();
    var store := new Byte[8 * |ins| + 1];
    var r := unpack.Init(w, store, mode);
    for i := 0 to |ins|
      invariant unpack.buf == store && fresh(store) && fresh(unpack) && unpack.mode == mode && unpack.frameBits == w
      invariant unpack.Value().Unpacks(ins[..i])
    {
      UnpackRoom(unpack.Value(), i, |ins|);
      UnpackFacts(unpack.Value(), ins[..i]);
      r := unpack.Out(ins[i], ins[..i], beyond);
      assert ins[..i] + [ins[i]] == ins[..i + 1];
    }
    assert ins[..|ins|] == ins;
    UnpacksCells(unpack.Value(), ins);
    UnpackFacts(unpack.Value(), ins);
    cells := unpack.buf[..unpack.cur];
    assert unpack.Value().buf[..unpack.cur] == cells;
  }

  lemma UnpackRoom(v: State, i: nat, n: nat)
    requires 1 <= v.frameBits && i < n && |v.buf| == 8 * n + 1
    ensures v.Covers(i + 1)
  {
    MulAtMost(|v.buf|, 1, v.frameBits);
    MulCommutes(v.frameBits, |v.buf|);
  }
}
