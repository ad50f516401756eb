/**
The scanners of switch_utils.h that rewrite a string in place: disabling
variable references, blanking control characters, cutting a number down.
*/
module Scan {
  import opened CString
  import opened Swar

  const DOLLAR: Octet := 36
  const PERCENT: Octet := 37
  const SLASH: Octet := 47
  const COLON: Octet := 58
  const AT: Octet := 64
  const BACKSLASH: Octet := 92
  const BRACE: Octet := 123

  // ---- What the scans are for ----

  /* The first place from i on that does not hold a backslash. */
  function SkipBackslashes(s: seq<Octet>, i: nat): (j: nat)
    requires i <= |s|
    ensures i <= j <= |s|
    decreases |s| - i
  {
    if i < |s| && s[i] == BACKSLASH then SkipBackslashes(s, i + 1) else i
  }

  /* A variable reference starts at i: a dollar sign, any number of backslashes,
     an opening brace. */
  predicate VarAt(s: seq<Octet>, i: nat) {
    i < |s| && s[i] == DOLLAR &&
    var j := SkipBackslashes(s, i + 1);
    j < |s| && s[j] == BRACE
  }

  predicate HasVar(s: seq<Octet>) {
    exists i :: 0 <= i < |s| && VarAt(s, i)
  }

  /* Every reference made harmless. */
  function Disabled(s: seq<Octet>): (r: seq<Octet>)
    ensures |r| == |s| && forall i :: 0 <= i < |s| ==> r[i] == if VarAt(s, i) then PERCENT else s[i]
  {
    seq(|s|, i requires 0 <= i < |s| => if VarAt(s, i) then PERCENT else s[i])
  }

  /* Control characters other than line ends made blank. */
  function CleanByte(x: Octet): Octet {
    if x < 32 && x != 10 && x != 13 then 32 else x
  }

  function Clean(s: seq<Octet>): (r: seq<Octet>)
    ensures |r| == |s| && forall i :: 0 <= i < |s| ==> r[i] == CleanByte(s[i])
  {
    seq(|s|, i requires 0 <= i < |s| => CleanByte(s[i]))
  }

  // ---- Laws ----

  /* Rewriting characters that are neither backslash nor brace into others of
     that kind moves no reference. */
  lemma {:induction false} SkipAlike(s: seq<Octet>, t: seq<Octet>, i: nat)
    requires |s| == |t| && i <= |s|
    requires forall l :: i <= l < |s| ==> (s[l] == BACKSLASH <==> t[l] == BACKSLASH)
    ensures SkipBackslashes(s, i) == SkipBackslashes(t, i)
    decreases |s| - i
  {
    if i < |s| && s[i] == BACKSLASH {
      SkipAlike(s, t, i + 1);
    }
  }

  /* A reference, character by character: a dollar sign, later a brace, and nothing
     but backslashes between. */
  lemma VarAtIs(s: seq<Octet>, i: nat)
    ensures VarAt(s, i) <==>
            && i < |s| && s[i] == '$' as int
            && exists j :: i < j < |s| && s[j] == '{' as int && forall l :: i < l < j ==> s[l] == '\\' as int
  {
    if i < |s| {
      var j := SkipBackslashes(s, i + 1);
      SkipIs(s, i + 1);
      if k :| i < k < |s| && s[k] == '{' as int && forall l :: i < l < k ==> s[l] == '\\' as int {
        assert j == k;
      }
    }
  }

  lemma {:induction false} SkipIs(s: seq<Octet>, i: nat)
    requires i <= |s|
    ensures var j := SkipBackslashes(s, i);
            (forall l :: i <= l < j ==> s[l] == BACKSLASH) && (j < |s| ==> s[j] != BACKSLASH)
    decreases |s| - i
  {
    if i < |s| && s[i] == BACKSLASH {
      SkipIs(s, i + 1);
    }
  }

  /* Disabling writes percent signs over the dollar signs of references and nothing
     else; cleaning writes blanks over control characters other than line ends. */
  lemma RewrittenBytes(s: seq<Octet>, i: nat)
    requires i < |s|
    ensures Disabled(s)[i] == if VarAt(s, i) then '%' as int else s[i]
    ensures Clean(s)[i] == if s[i] < ' ' as int && s[i] != '\n' as int && s[i] != '\r' as int then ' ' as int else s[i]
  {
  }

  /* No reference is left after disabling. */
  lemma DisabledHasNone(s: seq<Octet>)
    ensures !HasVar(Disabled(s))
  {
    var t := Disabled(s);
    forall i | 0 <= i < |t|
      ensures !VarAt(t, i)
    {
      SkipAlike(s, t, i + 1);
    }
  }

  /* Disabling changes a string exactly if it has a reference. */
  lemma DisabledSame(s: seq<Octet>)
    ensures Disabled(s) == s <==> !HasVar(s)
  {
    if HasVar(s) {
      var i :| 0 <= i < |s| && VarAt(s, i);
      assert Disabled(s)[i] != s[i];
    }
  }

  /* The two cleanings of profile_dup_clean can be done in either order. */
  lemma CleanCommutes(s: seq<Octet>)
    ensures Disabled(Clean(s)) == Clean(Disabled(s))
  {
    var t := Clean(s);
    forall i | 0 <= i < |s|
      ensures VarAt(t, i) <==> VarAt(s, i)
    {
      SkipAlike(s, t, i + 1);
    }
  }

  // ---- The scan for references ----

  /* Reading one more character. */
  lemma {:induction false} SkipExtend(s: seq<Octet>, c: Octet, i: nat)
    requires i <= |s|
    ensures SkipBackslashes(s + [c], i) ==
            var j := SkipBackslashes(s, i); if j == |s| && c == BACKSLASH then j + 1 else j
    decreases |s| - i
  {
    if i < |s| && s[i] == BACKSLASH {
      SkipExtend(s, c, i + 1);
    }
  }

  /* The only dollar sign that may still turn out to start a reference. */
  ghost predicate Open(s: seq<Octet>, i: nat) {
    i < |s| && s[i] == DOLLAR && SkipBackslashes(s, i + 1) == |s|
  }

  lemma OpenExtend(s: seq<Octet>, c: Octet, i: nat)
    ensures Open(s + [c], i) <==> if i == |s| then c == DOLLAR else Open(s, i) && c == BACKSLASH
    ensures VarAt(s + [c], i) <==> VarAt(s, i) || (Open(s, i) && c == BRACE)
  {
    if i < |s| {
      SkipExtend(s, c, i + 1);
    }
  }

  /* `dol` is the open dollar sign of what has been read, or -1. */
  ghost predicate Tracks(s: seq<Octet>, dol: int) {
    && -1 <= dol < |s| && (dol >= 0 ==> Open(s, dol))
    && forall i :: 0 <= i < |s| && Open(s, i) ==> i == dol
  }

  lemma TracksExtend(s: seq<Octet>, c: Octet, dol: int)
    requires Tracks(s, dol)
    ensures Tracks(s + [c], if c == DOLLAR then |s| else if dol >= 0 && c == BACKSLASH then dol else -1)
    ensures forall i :: 0 <= i <= |s| ==>
              (VarAt(s + [c], i) <==> (i < |s| && VarAt(s, i)) || (dol >= 0 && i == dol && c == BRACE))
  {
    hide Open, VarAt;
    forall i | 0 <= i <= |s|
      ensures Open(s + [c], i) <==> if i == |s| then c == DOLLAR else Open(s, i) && c == BACKSLASH
      ensures VarAt(s + [c], i) <==> VarAt(s, i) || (Open(s, i) && c == BRACE)
    {
      OpenExtend(s, c, i);
    }
    NoneBeyond(s);
  }

  lemma NoneBeyond(s: seq<Octet>)
    ensures !Open(s, |s|) && !VarAt(s, |s|)
  {
  }

  /* What the scan has made of o, a text and what follows it, after p
     characters. */
  ghost function DisabledSoFar(o: seq<Octet>, p: nat): (r: seq<Octet>)
    requires p <= |o|
    ensures |r| == |o| && r[p..] == o[p..]
  {
    Disabled(o[..p]) + o[p..]
  }

  lemma DisabledStep(o: seq<Octet>, p: nat, dol: int)
    requires p < |o| && Tracks(o[..p], dol)
    ensures DisabledSoFar(o, p + 1) ==
            if dol >= 0 && o[p] == BRACE then DisabledSoFar(o, p)[dol := PERCENT] else DisabledSoFar(o, p)
    ensures HasVar(o[..p + 1]) <==> HasVar(o[..p]) || (dol >= 0 && o[p] == BRACE)
  {
    hide VarAt, Open;
    var t, c := o[..p], o[p];
    assert o[..p + 1] == t + [c];
    TracksExtend(t, c, dol);
    NoneBeyond(t);
    forall i | 0 <= i < |t| + 1
      ensures VarAt(t + [c], i) <==> VarAt(t, i) || (dol >= 0 && i == dol && c == BRACE)
    {
    }
    if dol >= 0 && c == BRACE {
      assert VarAt(t + [c], dol);
    }
    forall i | 0 <= i < |t| && VarAt(t, i)
      ensures VarAt(t + [c], i)
    {
    }
  }

  /* switch_string_var_check: with `disable`, disables every reference and
     returns false; without, leaves the string alone and says whether it has
     one. */
  method StringVarCheck(s: array?<Octet>, disable: bool) returns (r: bool)
    requires s != null ==> 0 in s[..]
    modifies s
    ensures s == null || disable ==> !r
    ensures s != null && disable ==> s[..] == DisabledSoFar(old(s[..]), old(StrLen(s[..])))
    ensures s != null && !disable ==> s[..] == old(s[..]) && r == HasVar(Text(s[..]))
  {
    hide HasVar, Tracks, DisabledSoFar;
    if s == null {
      return false;
    }
    ghost var o := s[..];
    var p, dol := 0, -1;
    ScanStart(o);
    while s[p] != 0
      invariant 0 <= p <= StrLen(o) && Tracks(o[..p], dol) && -1 <= dol < p
      invariant s[..] == (if disable then DisabledSoFar(o, p) else o) && s[p..] == o[p..]
      invariant !disable ==> !HasVar(o[..p])
      decreases StrLen(o) - p
    {
      assert s[p] == o[p] by { assert s[p..][0] == o[p..][0]; }
      NulAhead(o, p);
      TracksExtend(o[..p], o[p], dol);
      DisabledStep(o, p, dol);
      assert o[..p] + [o[p]] == o[..p + 1];
      if s[p] == DOLLAR {
        dol := p;
      } else if dol >= 0 {
        if s[p] == BRACE {
          if disable {
            s[dol] := PERCENT;
            dol := -1;
          } else {
            HasVarLater(o, p + 1);
            return true;
          }
        } else if s[p] != BACKSLASH {
          dol := -1;
        }
      }
      p := p + 1;
      assert s[p..] == o[p..];
    }
    assert s[p] == o[p] by { assert s[p..][0] == o[p..][0]; }
    NulAhead(o, p);
    return false;
  }

  lemma ScanStart(o: seq<Octet>)
    ensures Tracks(o[..0], -1) && DisabledSoFar(o, 0) == o && !HasVar(o[..0])
  {
  }

  lemma HasVarLater(o: seq<Octet>, p: nat)
    requires 0 in o && p <= StrLen(o) && HasVar(o[..p])
    ensures HasVar(Text(o))
  {
    var i :| 0 <= i < p && VarAt(o[..p], i);
    assert Text(o)[..p] == o[..p];
    StillVar(Text(o), p, i);
  }

  lemma {:induction false} StillVar(t: seq<Octet>, p: nat, i: nat)
    requires p <= |t| && VarAt(t[..p], i)
    ensures VarAt(t, i)
    decreases |t| - p
  {
    if p == |t| {
      assert t[..p] == t;
    } else {
      assert t[..p + 1] == t[..p] + [t[p]];
      OpenExtend(t[..p], t[p], i);
      StillVar(t, p + 1, i);
    }
  }

  /* switch_string_var_check_const */
  method StringVarCheckConst(s: array?<Octet>) returns (r: bool)
    requires s != null ==> 0 in s[..]
    ensures r == (s != null && HasVar(Text(s[..])))
  {
    hide HasVar, Tracks, VarAt, DisabledSoFar;
    if s == null {
      return false;
    }
    ghost var o := s[..];
    var p, dol := 0, false;
    ghost var d := -1;
    ScanStart(o);
    while s[p] != 0
      invariant 0 <= p <= StrLen(o) && Tracks(o[..p], d) && dol == (d >= 0)
      invariant !HasVar(o[..p])
      decreases StrLen(o) - p
    {
      NulAhead(o, p);
      TracksExtend(o[..p], o[p], d);
      DisabledStep(o, p, d);
      assert o[..p] + [o[p]] == o[..p + 1];
      if s[p] == DOLLAR {
        dol := true;
        d := p;
      } else if dol {
        if s[p] == BRACE {
          HasVarLater(o, p + 1);
          return true;
        } else if s[p] != BACKSLASH {
          dol := false;
          d := -1;
        }
      }
      p := p + 1;
    }
    NulAhead(o, p);
    return false;
  }

  ghost function CleanSoFar(o: seq<Octet>, p: nat): (r: seq<Octet>)
    requires p <= |o|
    ensures |r| == |o| && r[p..] == o[p..]
  {
    Clean(o[..p]) + o[p..]
  }

  lemma CleanStep(o: seq<Octet>, p: nat)
    requires p < |o|
    ensures CleanSoFar(o, 0) == o && CleanSoFar(o, p)[p] == o[p]
    ensures CleanSoFar(o, p + 1) == CleanSoFar(o, p)[p := CleanByte(o[p])]
  {
  }

  /* switch_clean_string */
  method CleanString(s: array?<Octet>)
    requires s != null ==> 0 in s[..]
    modifies s
    ensures s != null ==> s[..] == CleanSoFar(old(s[..]), old(StrLen(s[..])))
  {
    hide CleanSoFar;
    if s == null {
      return;
    }
    ghost var o := s[..];
    var p := 0;
    CleanStep(o, 0);
    while s[p] != 0
      invariant 0 <= p <= StrLen(o) && s[..] == CleanSoFar(o, p) && s[p] == o[p]
      decreases StrLen(o) - p
    {
      NulAhead(o, p);
      CleanStep(o, p);
      var x := s[p];
      if x < 32 && x != 10 && x != 13 {
        s[p] := 32;
      }
      p := p + 1;
      CleanStep(o, p);
    }
    NulAhead(o, p);
  }

  /* What profile_dup_clean keeps, from switch_caller.h: clean text without
     references. */
  method DupClean(a: array?<Octet>) returns (b: array<Octet>)
    requires a != null ==> 0 in a[..]
    ensures 0 in b[..] && !HasVar(Text(b[..]))
    ensures var t := if a == null then [] else Text(a[..]); Text(b[..]) == Disabled(Clean(t)) == Clean(Disabled(t))
  {
    hide HasVar;
    if a == null || a[0] == 0 {
      b := new Octet[1](i => 0);
      assert b[..] == [] + [0];
      TextOf([], [0]);
      DisabledHasNone([]);
      if a != null {
        FirstNul(a[..], 0);
      }
      return;
    }
    b := StrDup(a);
    TextOf(Text(a[..]), [0]);
    CleanedText(b[..]);
    CleanString(b);
    DisabledText(b[..]);
    var r := StringVarCheck(b, true);
    CleanCommutes(Text(a[..]));
    DisabledHasNone(Clean(Text(a[..])));
  }

  lemma CleanedText(o: seq<Octet>)
    requires 0 in o
    ensures 0 in CleanSoFar(o, StrLen(o)) && Text(CleanSoFar(o, StrLen(o))) == Clean(Text(o))
  {
    TextOf(Clean(Text(o)), o[StrLen(o)..]);
  }

  lemma DisabledText(o: seq<Octet>)
    requires 0 in o
    ensures 0 in DisabledSoFar(o, StrLen(o)) && Text(DisabledSoFar(o, StrLen(o))) == Disabled(Text(o))
  {
    hide VarAt;
    TextOf(Disabled(Text(o)), o[StrLen(o)..]);
  }

  // ---- Cutting a number down ----

  /* strchr and strrchr, as the index found or |s|. */
  function IndexOf(s: seq<Octet>, c: Octet): (i: nat)
    ensures i <= |s| && (i < |s| ==> s[i] == c)
    ensures forall l :: 0 <= l < i ==> s[l] != c
  {
    if s == [] || s[0] == c then 0 else 1 + IndexOf(s[1..], c)
  }

  function LastIndexOf(s: seq<Octet>, c: Octet): (i: nat)
    ensures i <= |s| && (i < |s| ==> s[i] == c)
    ensures forall l :: (if i < |s| then i + 1 else 0) <= l < |s| ==> s[l] != c
  {
    if s == [] then 0
    else if s[|s| - 1] == c then |s| - 1
    else
      var i := LastIndexOf(s[..|s| - 1], c);
      if i == |s| - 1 then |s| else i
  }

  /* r is the longest part at the end of t without a slash or a colon. */
  ghost predicate LastPart(t: seq<Octet>, r: seq<Octet>) {
    && |r| <= |t| && t[|t| - |r|..] == r
    && SLASH !in r && COLON !in r
    && (|r| < |t| ==> t[|t| - |r| - 1] == SLASH || t[|t| - |r| - 1] == COLON)
  }

  /* Of all parts at the end of t without a slash or a colon it is the longest. */
  lemma LastPartLongest(t: seq<Octet>, r: seq<Octet>)
    ensures LastPart(t, r) <==> PlainEnd(t, r) && forall q :: PlainEnd(t, q) ==> |q| <= |r|
  {
    hide PlainEnd, LastPart;
    PartIsEnd(t, r);
    if LastPart(t, r) {
      forall q | PlainEnd(t, q)
        ensures |q| <= |r|
      {
        NoLonger(t, r, q);
      }
    }
    if PlainEnd(t, r) && forall q :: PlainEnd(t, q) ==> |q| <= |r| {
      EndBounds(t, r);
      OneLonger(t, r);
    }
  }

  lemma EndBounds(t: seq<Octet>, r: seq<Octet>)
    requires PlainEnd(t, r)
    ensures |r| <= |t|
  {
  }

  lemma PartIsEnd(t: seq<Octet>, r: seq<Octet>)
    ensures LastPart(t, r) ==> PlainEnd(t, r)
  {
  }

  lemma NoLonger(t: seq<Octet>, r: seq<Octet>, q: seq<Octet>)
    requires LastPart(t, r) && PlainEnd(t, q)
    ensures |q| <= |r|
  {
  }

  /* What precedes the longest one is a slash or a colon. */
  lemma OneLonger(t: seq<Octet>, r: seq<Octet>)
    requires PlainEnd(t, r) && (|r| < |t| ==> !PlainEnd(t, t[|t| - |r| - 1..]))
    ensures LastPart(t, r)
  {
    if |r| < |t| {
      var n := |t| - |r|;
      var q := t[n - 1..];
      assert q == [t[n - 1]] + r;
      assert t[|t| - |q|..] == q;
      assert SLASH in q || COLON in q;
    }
  }

  ghost predicate PlainEnd(t: seq<Octet>, r: seq<Octet>) {
    |r| <= |t| && t[|t| - |r|..] == r && '/' as int !in r && ':' as int !in r
  }

  /* The text before the first at sign. */
  lemma BeforeAt(t: seq<Octet>)
    ensures var n := IndexOf(t, AT);
            n <= |t| && '@' as int !in t[..n] && (n < |t| ==> t[n] == '@' as int)
  {
  }

  /* switch_sanitize_number: what follows the last slash or colon of the text
     before the first @. */
  method SanitizeNumber(number: array<Octet>) returns (p: nat)
    requires 0 in number[..]
    modifies number
    ensures p <= number.Length && 0 in number[p..]
    ensures var t := old(Text(number[..])); LastPart(t[..IndexOf(t, AT)], Text(number[p..]))
  {
    hide Text, IndexOf, IsEnd;
    ghost var t := Text(number[..]);
    if SLASH !in Text(number[..]) && COLON !in Text(number[..]) && AT !in Text(number[..]) {
      assert number[..] == number[0..];
      NoAtSign(t);
      return 0;
    }
    CutAtSigns(number);
    ghost var cut := Text(number[..]);
    assert number[..] == number[0..];
    Whole(number[..]);
    var p1 := SkipPast(number, 0, SLASH, cut);
    p := SkipPast(number, p1, COLON, cut);
    PartFound(number[p1..], number[p..], cut, p1 > 0, p > p1);
  }

  lemma NoAtSign(t: seq<Octet>)
    requires AT !in t
    ensures t[..IndexOf(t, AT)] == t
  {
  }

  /* Past the last slash, and then past the last colon after it. */
  lemma PartFound(o1: seq<Octet>, o: seq<Octet>, t: seq<Octet>, slash: bool, colon: bool)
    requires IsEnd(o1, t) && SLASH !in Text(o1) && (slash ==> IsAfter(o1, t, SLASH))
    requires !slash ==> |Text(o1)| == |t|
    requires IsEnd(o, t) && |Text(o)| <= |Text(o1)| && COLON !in Text(o) && (colon ==> IsAfter(o, t, COLON))
    requires !colon ==> o == o1
    ensures LastPart(t, Text(o))
  {
    var r, r1 := Text(o), Text(o1);
    assert r == r1[|r1| - |r|..];
  }

  /* The string at o is the beginning of t, up to no place before n. */
  ghost predicate IsStart(o: seq<Octet>, t: seq<Octet>, n: nat) {
    0 in o && n <= |Text(o)| <= |t| && Text(o) == t[..|Text(o)|]
  }

  lemma CutStep(o: seq<Octet>, t: seq<Octet>, q: nat)
    requires IsStart(o, t, IndexOf(t, AT)) && q < |Text(o)| && Text(o)[q] == AT
    ensures 0 in o[q := 0] && |Text(o[q := 0])| < |Text(o)|
    ensures IsStart(o[q := 0], t, IndexOf(t, AT))
  {
    hide IndexOf;
    TextOf(o[..q], o[q := 0][q..]);
    assert o[q := 0] == o[..q] + o[q := 0][q..];
    FirstIndex(t, AT, q);
  }

  lemma FirstIndex(t: seq<Octet>, c: Octet, q: nat)
    requires q < |t| && t[q] == c
    ensures IndexOf(t, c) <= q
  {
    hide IndexOf;
  }

  lemma CutEnd(o: seq<Octet>, t: seq<Octet>)
    requires IsStart(o, t, IndexOf(t, AT)) && AT !in Text(o)
    ensures Text(o) == t[..IndexOf(t, AT)]
  {
    hide IndexOf;
  }

  /* while ((q = strrchr(p, '@'))) *q = NUL; */
  method CutAtSigns(s: array<Octet>)
    requires 0 in s[..]
    modifies s
    ensures 0 in s[..]
    ensures var t := old(Text(s[..])); Text(s[..]) == t[..IndexOf(t, AT)]
  {
    hide IsStart, IndexOf, LastIndexOf, Text;
    ghost var t := Text(s[..]);
    Whole(s[..]);
    var q := LastIndexOf(Text(s[..]), AT);
    while q < |Text(s[..])|
      invariant 0 in s[..] && q == LastIndexOf(Text(s[..]), AT)
      invariant IsStart(s[..], t, IndexOf(t, AT))
      decreases |Text(s[..])|
    {
      CutStep(s[..], t, q);
      Inside(s[..], q);
      s[q] := 0;
      q := LastIndexOf(Text(s[..]), AT);
    }
    CutEnd(s[..], t);
  }

  lemma Whole(o: seq<Octet>)
    requires 0 in o
    ensures IsStart(o, Text(o), IndexOf(Text(o), AT)) && IsEnd(o, Text(o))
  {
  }

  lemma Inside(o: seq<Octet>, q: nat)
    requires 0 in o && q < |Text(o)|
    ensures q + 1 < |o|
  {
  }

  /* The string at o is the end of t. */
  ghost predicate IsEnd(o: seq<Octet>, t: seq<Octet>) {
    0 in o && |Text(o)| <= |t| && Text(o) == t[|t| - |Text(o)|..]
  }

  /* ... and comes after a c. */
  ghost predicate IsAfter(o: seq<Octet>, t: seq<Octet>, c: Octet) {
    0 in o && |Text(o)| < |t| && t[|t| - |Text(o)| - 1] == c
  }

  lemma SkipStep(o: seq<Octet>, t: seq<Octet>, q: nat)
    requires IsEnd(o, t) && q < |Text(o)|
    ensures q + 1 < |o| && 0 in o[q + 1..] && |Text(o[q + 1..])| < |Text(o)|
    ensures IsEnd(o[q + 1..], t) && IsAfter(o[q + 1..], t, Text(o)[q])
  {
    var n, k := StrLen(o), q + 1;
    assert o[k..][n - k] == 0;
    assert o[k..][..n - k] == o[..n][k..];
    FirstNul(o[k..], n - k);
  }

  /* while (p && (q = strchr(p, c))) p = q + 1; */
  method SkipPast(s: array<Octet>, start: nat, c: Octet, ghost t: seq<Octet>) returns (p: nat)
    requires start <= s.Length && 0 in s[start..] && IsEnd(s[start..], t)
    ensures start <= p <= s.Length && 0 in s[p..] && IsEnd(s[p..], t)
    ensures |Text(s[p..])| <= |Text(s[start..])| && c !in Text(s[p..])
    ensures p > start ==> IsAfter(s[p..], t, c)
  {
    hide IsEnd, IsAfter, IndexOf, Text;
    p := start;
    var q := IndexOf(Text(s[p..]), c);
    while q < |Text(s[p..])|
      invariant start <= p <= s.Length && 0 in s[p..] && IsEnd(s[p..], t) && q == IndexOf(Text(s[p..]), c)
      invariant |Text(s[p..])| <= |Text(s[start..])|
      invariant p > start ==> IsAfter(s[p..], t, c)
      decreases |Text(s[p..])|
    {
      SkipStep(s[p..], t, q);
      assert s[p..][q + 1..] == s[p + (q + 1)..];
      p := p + (q + 1);
      q := IndexOf(Text(s[p..]), c);
    }
  }
}
