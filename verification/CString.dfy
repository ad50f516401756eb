/**
NUL-terminated strings in memory, and the string functions of switch_utils.h
that map case or look for one string inside another.
*/
module CString {
  import opened Swar

  /* strlen: the index of the first NUL. */
  function StrLen(s: seq<Octet>): (n: nat)
    requires 0 in s
    ensures n < |s| && s[n] == 0 && 0 !in s[..n]
  {
    if s[0] == 0 then 0 else 1 + StrLen(s[1..])
  }

  /* The characters before the NUL. */
  function Text(s: seq<Octet>): (t: seq<Octet>)
    requires 0 in s
    ensures 0 !in t
  {
    s[..StrLen(s)]
  }

  /* strstr(s, q) != NULL */
  predicate Occurs(q: seq<Octet>, s: seq<Octet>) {
    exists i :: 0 <= i <= |s| && OccursAt(q, s, i)
  }

  predicate OccursAt(q: seq<Octet>, s: seq<Octet>, i: nat) {
    i + |q| <= |s| && s[i..i + |q|] == q
  }

  /* One string occurs in another if something can be put on both sides of it. */
  lemma OccursIs(q: seq<Octet>, s: seq<Octet>)
    ensures Occurs(q, s) <==> exists a, b :: s == a + q + b
  {
    if Occurs(q, s) {
      var i :| 0 <= i <= |s| && OccursAt(q, s, i);
      assert s == s[..i] + q + s[i + |q|..];
    }
    if a, b :| s == a + q + b {
      assert s[|a|..|a| + |q|] == q;
      assert OccursAt(q, s, |a|);
    }
  }

  lemma TextOf(t: seq<Octet>, rest: seq<Octet>)
    requires 0 !in t && |rest| > 0 && rest[0] == 0
    ensures 0 in t + rest && StrLen(t + rest) == |t| && Text(t + rest) == t
  {
    var s := t + rest;
    assert s[|t|] == 0;
    assert s[..|t|] == t;
    FirstNul(s, |t|);
  }

  lemma {:induction false} FirstNul(s: seq<Octet>, n: nat)
    requires n < |s| && s[n] == 0 && 0 !in s[..n]
    ensures StrLen(s) == n
  {
    if n > 0 {
      assert s[0] == s[..n][0];
      assert s[1..][..n - 1] == s[..n][1..];
      FirstNul(s[1..], n - 1);
    }
  }

  // ---- One character ----

  /* (char) switch_toupper(*c): a char widens to uint32_t with its sign. */
  function MapChar(c: Case, b: Octet): Octet {
    Map32(c, if b < 128 then b else 0xFFFF_FF00 + b) % 256
  }

  lemma MapCharIsByte(c: Case, b: Octet)
    ensures MapChar(c, b) == MapByte(c, b)
  {
    hide Map32;
    var x: Octet := if b < 128 then 0 else 0xFF;
    FourBytes(b, x);
    Map32IsBytewise(c, [b, x, x, x]);
    var bs := MapBytes(c, [b, x, x, x]);
    LowByte(bs[0], Word(bs[1..]));
  }

  lemma FourBytes(b: Octet, x: Octet)
    ensures Word([b, x, x, x]) == b + 256 * x + 0x1_0000 * x + 0x100_0000 * x
  {
    assert [b, x, x, x][1..] == [x, x, x] && [x, x, x][1..] == [x, x] && [x, x][1..] == [x];
    assert Word([x]) == x;
    assert Word([x, x]) == x + 256 * x;
    assert Word([x, x, x]) == x + 256 * x + 0x1_0000 * x;
  }

  lemma MapTwice(c: Case, s: seq<Octet>)
    ensures MapBytes(c, MapBytes(c, s)) == MapBytes(c, s)
  {
  }

  lemma MapKeepsText(c: Case, s: seq<Octet>)
    requires 0 !in s
    ensures 0 !in MapBytes(c, s)
  {
  }

  // ---- Whole strings ----

  /* The word function of a build whose words have `size` bytes. */
  function MapWord(c: Case, size: nat, bs: seq<Octet>): (r: seq<Octet>)
    requires size == 4 || size == 8
    requires |bs| == size
    ensures |r| == size
  {
    if size == 8 then Map64IsBytewise(c, bs); Bytes(Map64(c, Word(bs)), 8)
    else Map32IsBytewise(c, bs); Bytes(Map32(c, Word(bs)), 4)
  }

  lemma MapWordIsBytewise(c: Case, size: nat, bs: seq<Octet>)
    requires (size == 4 || size == 8) && |bs| == size
    ensures MapWord(c, size, bs) == MapBytes(c, bs)
  {
    hide Map64, Map32, Word, Bytes, MapByte;
    if size == 8 {
      Map64IsBytewise(c, bs);
    } else {
      Map32IsBytewise(c, bs);
    }
    BytesOfWord(MapBytes(c, bs));
  }

  /* switch_toupper_max and switch_tolower_max: whole words while more than one
     of them is left, then single characters. */
  method MapMax(c: Case, s: array<Octet>, size: nat)
    requires 0 in s[..] && (size == 4 || size == 8)
    modifies s
    ensures s[..] == Mapped(c, old(s[..]), old(StrLen(s[..])))
  {
    hide MapWord, Mapped, MapChar, MapByte;
    ghost var o := s[..];
    var l := StrLen(s[..]);
    var p := 0;
    NothingMapped(c, o);
    while l > size
      invariant 0 <= l && 0 <= p && p + l == StrLen(o) && s[..] == Mapped(c, o, p)
    {
      MapWordAt(c, s, size, p, o);
      p := p + size;
      l := l - size;
    }
    while l > 0
      invariant 0 <= l && 0 <= p && p + l == StrLen(o) && s[..] == Mapped(c, o, p)
    {
      CharStep(c, o, p);
      s[p] := MapChar(c, s[p]);
      p := p + 1;
      l := l - 1;
    }
  }

  /* *b = switch_toupper(*b), on the word at p. */
  method MapWordAt(c: Case, s: array<Octet>, size: nat, p: nat, ghost o: seq<Octet>)
    requires (size == 4 || size == 8) && p + size <= |o| && s[..] == Mapped(c, o, p)
    modifies s
    ensures s[..] == Mapped(c, o, p + size)
  {
    hide MapWord, Mapped, MapByte;
    MappedAhead(c, o, p, size);
    MappedStep(c, o, p, size);
    var bs := s[p..p + size];
    assert bs == o[p..p + size];
    MapWordIsBytewise(c, size, bs);
    Store(s, p, MapWord(c, size, bs));
  }

  /* The loop of switch_uc_strdup, switch_lc_strdup and switch_strstr, which
     stops at the NUL. */
  method MapChars(c: Case, s: array<Octet>)
    requires 0 in s[..]
    modifies s
    ensures s[..] == Mapped(c, old(s[..]), old(StrLen(s[..])))
  {
    hide Mapped, MapChar, MapByte;
    ghost var o := s[..];
    var p := 0;
    NothingMapped(c, o);
    while s[p] != 0
      invariant p <= StrLen(o) && s[..] == Mapped(c, o, p) && s[p] == o[p]
      decreases StrLen(o) - p
    {
      NulAhead(o, p);
      CharStep(c, o, p);
      s[p] := MapChar(c, s[p]);
      p := p + 1;
      MappedAt(c, o, p);
    }
    NulAhead(o, p);
  }

  /* The first p bytes of o mapped, the others as they are. */
  ghost function Mapped(c: Case, o: seq<Octet>, p: nat): (r: seq<Octet>)
    requires p <= |o|
    ensures |r| == |o|
  {
    MapBytes(c, o[..p]) + o[p..]
  }

  lemma NothingMapped(c: Case, o: seq<Octet>)
    ensures Mapped(c, o, 0) == o
  {
  }

  lemma MappedAt(c: Case, o: seq<Octet>, p: nat)
    requires p < |o|
    ensures Mapped(c, o, p)[p] == o[p]
  {
  }

  lemma CharStep(c: Case, o: seq<Octet>, p: nat)
    requires p < |o|
    ensures var m := Mapped(c, o, p); m[p := MapChar(c, m[p])] == Mapped(c, o, p + 1)
  {
    hide MapChar, MapByte;
    MapCharIsByte(c, o[p]);
  }

  lemma NulAhead(o: seq<Octet>, p: nat)
    requires 0 in o && p <= StrLen(o)
    ensures o[p] == 0 <==> p == StrLen(o)
  {
    if p < StrLen(o) {
      assert o[p] == o[..StrLen(o)][p];
    }
  }

  lemma MappedAhead(c: Case, o: seq<Octet>, p: nat, k: nat)
    requires p + k <= |o|
    ensures Mapped(c, o, p)[p..p + k] == o[p..p + k] && Mapped(c, o, p)[p + k..] == o[p + k..]
    ensures Mapped(c, o, p)[..p] == MapBytes(c, o[..p])
  {
    hide MapByte;
  }

  lemma MappedStep(c: Case, o: seq<Octet>, p: nat, k: nat)
    requires p + k <= |o|
    ensures Mapped(c, o, p + k) == Mapped(c, o, p)[..p] + MapBytes(c, o[p..p + k]) + Mapped(c, o, p)[p + k..]
  {
    hide MapByte, MapBytes;
    MappedAhead(c, o, p, k);
    MapConcat(c, o[..p], o[p..p + k]);
    assert o[..p] + o[p..p + k] == o[..p + k];
  }

  lemma MapConcat(c: Case, s: seq<Octet>, t: seq<Octet>)
    ensures MapBytes(c, s + t) == MapBytes(c, s) + MapBytes(c, t)
  {
    hide MapByte;
  }

  /* A mapped string in memory holds the mapped text. */
  lemma MappedText(c: Case, o: seq<Octet>)
    requires 0 in o
    ensures 0 in Mapped(c, o, StrLen(o)) && Text(Mapped(c, o, StrLen(o))) == MapBytes(c, Text(o))
  {
    hide MapByte;
    MapKeepsText(c, Text(o));
    TextOf(MapBytes(c, Text(o)), o[StrLen(o)..]);
  }

  /* *b = w, byte by byte. */
  method Store(s: array<Octet>, p: nat, bs: seq<Octet>)
    requires p + |bs| <= s.Length
    modifies s
    ensures s[..] == old(s[..])[..p] + bs + old(s[..])[p + |bs|..]
  {
    forall i | 0 <= i < |bs| {
      s[p + i] := bs[i];
    }
  }

  /* strdup */
  method StrDup(it: array<Octet>) returns (dup: array<Octet>)
    requires 0 in it[..]
    ensures fresh(dup) && dup[..] == Text(it[..]) + [0]
  {
    var n := StrLen(it[..]);
    dup := new Octet[n + 1](i requires 0 <= i < n + 1 && n < it.Length reads it => it[i]);
    assert dup[..] == it[..][..n + 1] == it[..][..n] + [it[..][n]];
  }

  /* switch_uc_strdup and switch_lc_strdup */
  method MapStrDup(c: Case, it: array?<Octet>) returns (dup: array?<Octet>)
    requires it != null ==> 0 in it[..]
    ensures it == null <==> dup == null
    ensures dup != null ==> fresh(dup) && dup[..] == MapBytes(c, Text(it[..])) + [0]
  {
    if it == null {
      return null;
    }
    var d := StrDup(it);
    TextOf(Text(it[..]), [0]);
    MapChars(c, d);
    return d;
  }

  // ---- Looking for one string in another ----

  lemma OccursMapped(c: Case, q: seq<Octet>, s: seq<Octet>)
    requires Occurs(q, s)
    ensures Occurs(MapBytes(c, q), MapBytes(c, s))
  {
    var i :| 0 <= i <= |s| && OccursAt(q, s, i);
    assert MapBytes(c, s)[i..i + |q|] == MapBytes(c, s[i..i + |q|]);
    assert OccursAt(MapBytes(c, q), MapBytes(c, s), i);
  }

  /* The four tests of switch_strstr come to one. */
  lemma FourTests(q: seq<Octet>, s: seq<Octet>)
    ensures var Q, S := MapBytes(Upper, q), MapBytes(Upper, s);
            Occurs(q, s) || Occurs(q, S) || Occurs(Q, s) || Occurs(Q, S) <==> Occurs(Q, S)
  {
    hide Occurs, MapByte;
    var Q, S := MapBytes(Upper, q), MapBytes(Upper, s);
    MapTwice(Upper, q);
    MapTwice(Upper, s);
    if Occurs(q, s) {
      OccursMapped(Upper, q, s);
    }
    if Occurs(q, S) {
      OccursMapped(Upper, q, S);
    }
    if Occurs(Q, s) {
      OccursMapped(Upper, Q, s);
    }
  }

  /* switch_strstr: whether q occurs in s, in upper case; never for NULL. */
  method StrStr(s: array?<Octet>, q: array?<Octet>) returns (tf: bool)
    requires s != null ==> 0 in s[..]
    requires q != null ==> 0 in q[..]
    ensures tf == (s != null && q != null && Occurs(MapBytes(Upper, Text(q[..])), MapBytes(Upper, Text(s[..]))))
  {
    hide Occurs, MapByte, Text;
    if s == null || q == null {
      return false;
    }
    FourTests(Text(q[..]), Text(s[..]));
    if Occurs(Text(q[..]), Text(s[..])) {
      return true;
    }
    var S := StrDup(s);
    TextOf(Text(s[..]), [0]);
    MappedText(Upper, S[..]);
    MapChars(Upper, S);
    if Occurs(Text(q[..]), Text(S[..])) {
      return true;
    }
    var Q := StrDup(q);
    TextOf(Text(q[..]), [0]);
    MappedText(Upper, Q[..]);
    MapChars(Upper, Q);
    if Occurs(Text(Q[..]), Text(s[..])) {
      return true;
    }
    if Occurs(Text(Q[..]), Text(S[..])) {
      return true;
    }
    return false;
  }
}
