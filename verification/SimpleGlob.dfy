/**
The class CSimpleGlobTempl of SimpleGlob.h (Unix branches): an argv array whose
words are offsets into a string buffer while the buffer may move, and pointers
otherwise.
*/
module SimpleGlob {
  import opened CString
  import opened GlobSpec
  import opened GlobStore
  import opened Swar

  datatype Kind = Offsets | Pointers

  /* The place that a word of the argv array stands for; -1 is NULL. */
  function Offset(kind: Kind, base: nat, w: int): int {
    if kind.Offsets? then w else if w == 0 then -1 else w - base
  }

  /* The conversion of one word to the other kind. */
  function Convert(kind: Kind, base: nat, w: int): int {
    if kind.Pointers? then if w == -1 then 0 else base + w
    else if w == 0 then -1 else w - base
  }

  function OffsetsOf(kind: Kind, base: nat, words: seq<int>): (offs: seq<int>)
    ensures |offs| == |words|
  {
    seq(|words|, n requires 0 <= n < |words| => Offset(kind, base, words[n]))
  }

  /* A pointer is NULL or lies in the buffer, never below it. */
  ghost predicate Proper(kind: Kind, base: nat, words: seq<int>) {
    kind.Pointers? ==> forall n :: 0 <= n < |words| ==> words[n] == 0 || words[n] >= base
  }

  lemma ConvertKeeps(kind: Kind, base: nat, words: seq<int>, words': seq<int>, size: nat)
    requires Proper(kind, base, words) && (size > 0 ==> base > 0)
    requires forall n :: 0 <= n < |words| ==> -1 <= OffsetsOf(kind, base, words)[n] < size
    requires |words'| == |words|
    requires forall n :: 0 <= n < |words| ==> words'[n] == Convert(Other(kind), base, words[n])
    ensures OffsetsOf(Other(kind), base, words') == OffsetsOf(kind, base, words)
    ensures Proper(Other(kind), base, words')
  {
    forall n | 0 <= n < |words|
      ensures OffsetsOf(Other(kind), base, words')[n] == OffsetsOf(kind, base, words)[n]
      ensures kind.Offsets? ==> words'[n] == 0 || words'[n] >= base
    {
      assert -1 <= OffsetsOf(kind, base, words)[n] < size;
    }
  }

  /* A pointer of the caller's own in a reserved slot goes through both conversions
     when a name is added, with the buffer at `base` and then at `base'`.  It comes
     back if and only if it is NULL, or the buffer has not moved and it does not
     point to the byte before the buffer, which reads as NULL. */
  lemma OwnPointer(base: nat, base': nat, p: nat)
    ensures Convert(Pointers, base', Convert(Offsets, base, p)) == p <==>
            p == 0 || (base' == base && p + 1 != base)
  {
  }

  /* The words that the conversions leave after adding at each of these buffers in
     turn, the first being where the pointer was filled in. */
  function Converted(bases: seq<nat>, p: int): int
    requires bases != []
  {
    if |bases| == 1 then p
    else Converted(bases[1..], Convert(Pointers, bases[1], Convert(Offsets, bases[0], p)))
  }

  /* Over any number of Adds a pointer that never reads as NULL keeps its distance
     from the buffer, wherever that goes. */
  lemma {:induction false} OwnPointerRun(bases: seq<nat>, p: int)
    requires bases != [] && p != 0 && p + 1 != bases[0]
    requires forall i :: 0 <= i < |bases| ==> bases[i] + (p - bases[0]) != 0
    ensures Converted(bases, p) == p + bases[|bases| - 1] - bases[0]
    ensures Converted(bases, p) == p <==> bases[|bases| - 1] == bases[0]
  {
    if |bases| > 1 {
      var q := Convert(Pointers, bases[1], Convert(Offsets, bases[0], p));
      assert q == bases[1] + (p - bases[0]);
      assert forall i :: 0 <= i < |bases| - 1 ==> bases[1..][i] == bases[i + 1];
      OwnPointerRun(bases[1..], q);
    }
  }

  lemma GoodBounds(st: Store)
    requires Good(st)
    ensures forall n :: 0 <= n < |st.offs| ==> -1 <= st.offs[n] < |st.buffer|
  {
  }

  function Other(kind: Kind): Kind {
    if kind == Offsets then Pointers else Offsets
  }

  /* s[i], reading the NUL behind the last character. */
  function CharAt(s: seq<Octet>, i: nat): Octet {
    if i < |s| then s[i] else 0
  }

  /* realloc to a larger size: the old contents, and room behind them. */
  method Realloc<T(0)>(a: array<T>, size: nat) returns (b: array<T>)
    requires size >= a.Length
    ensures fresh(b) && b.Length == size && b[..a.Length] == a[..]
  {
    b := new T[size];
    forall i | 0 <= i < a.Length {
      b[i] := a[i];
    }
  }

  /* Doubles until it exceeds `needed`. */
  method Doubled(size: nat, initial: nat, needed: nat) returns (newSize: nat)
    requires initial > 0
    ensures newSize > needed && newSize >= 2 * size
    ensures newSize == 2 * size || newSize == initial || newSize <= 2 * needed
  {
    newSize := if size > 0 then size * 2 else initial;
    while needed >= newSize
      invariant newSize > 0 && newSize >= 2 * size
      invariant newSize == 2 * size || newSize == initial || newSize <= 2 * needed
      decreases needed + 1 - newSize
    {
      newSize := newSize * 2;
    }
  }

  class Glob {
    var flags: Flags
    var kind: Kind
    var args: array<int>
    var reserved: nat
    var argsLen: nat
    var base: nat
    var buffer: array<Octet>
    var bufferLen: nat

    predicate Sized()
      reads this
    {
      && reserved <= argsLen <= args.Length && bufferLen <= buffer.Length
      && (buffer.Length > 0 ==> base > 0)
    }

    function Contents(): Store
      requires Sized()
      reads this, args, buffer
    {
      Store(OffsetsOf(kind, base, args[..argsLen]), buffer[..bufferLen])
    }

    ghost predicate Valid()
      reads this, args, buffer
    {
      && Sized() && Proper(kind, base, args[..argsLen])
      && Good(Contents()) && Apart(Contents())
    }

    /* What a caller sees. */
    function List(): (s: seq<Name>)
      requires Valid()
      reads this, args, buffer
      ensures |s| == argsLen >= reserved
    {
      Names(Contents())
    }

    method SetArgvArrayType(newKind: Kind)
      requires Valid()
      modifies this`kind, args
      ensures Valid() && kind == newKind && Contents() == old(Contents()) && List() == old(List())
    {
      if kind == newKind {
        return;
      }
      hide Good, Apart, OffsetsOf, Proper, Convert;
      ghost var words := args[..argsLen];
      GoodBounds(Contents());
      for n := 0 to argsLen
        invariant kind == old(kind)
        invariant forall i :: 0 <= i < argsLen ==> args[i] == if i < n then Convert(newKind, base, words[i]) else words[i]
      {
        args[n] := Convert(newKind, base, args[n]);
      }
      ConvertKeeps(kind, base, words, args[..argsLen], bufferLen);
      kind := newKind;
    }

    /* Without memory, nothing changes. */
    method GrowArgvArray(newLen: nat, memory: bool) returns (ok: bool)
      modifies this`args
      ensures ok <==> newLen < old(args.Length) || memory
      ensures args == old(args) || (ok && fresh(args))
      ensures args.Length >= old(args.Length) && args[..old(args.Length)] == old(args[..])
      ensures ok ==> newLen < args.Length
    {
      if newLen >= args.Length {
        var newSize := Doubled(args.Length, 32, newLen);
        if !memory {
          return false;
        }
        args := Realloc(args, newSize);
      }
      return true;
    }

    method GrowStringBuffer(minSize: nat, moved: nat) returns (ok: bool)
      modifies this`buffer, this`base
      ensures ok <==> minSize < old(buffer.Length) || moved > 0
      ensures (buffer == old(buffer) && base == old(base)) || (ok && fresh(buffer) && base == moved > 0)
      ensures buffer.Length >= old(buffer.Length) && buffer[..old(buffer.Length)] == old(buffer[..])
      ensures ok ==> minSize < buffer.Length
    {
      if minSize >= buffer.Length {
        var newSize := Doubled(buffer.Length, 1024, minSize);
        if moved == 0 {
          return false;
        }
        buffer := Realloc(buffer, newSize);
        base := moved;
      }
      return true;
    }

    /* strcpy(m_pBuffer + at, text) */
    method StrCpy(at: nat, text: seq<Octet>)
      requires at + |text| < buffer.Length
      modifies buffer
      ensures buffer[..at + |text| + 1] == old(buffer[..at]) + text + [0]
    {
      for i := 0 to |text|
        invariant buffer[..at] == old(buffer[..at])
        invariant forall j :: 0 <= j < i ==> buffer[at + j] == text[j]
      {
        buffer[at + i] := text[i];
      }
      buffer[at + |text|] := 0;
    }

    method ClearSlots()
      requires reserved <= args.Length
      modifies args
      ensures args[..reserved] == Zeros(reserved)
    {
      for n := 0 to reserved
        invariant forall i :: 0 <= i < n ==> args[i] == 0
      {
        args[n] := 0;
      }
    }

    /* Of an array that is too short for one more slot, nothing can be used but
       slots that are all NULL already. */
    lemma StaleSlots()
      requires kind == Pointers && reserved == argsLen >= args.Length && bufferLen == 0
      requires buffer.Length > 0 ==> base > 0
      ensures Valid() <==> args[..] == Zeros(reserved)
    {
      hide Zeros;
      if args[..] == Zeros(reserved) {
        assert args[..argsLen] == args[..];
        ZerosAreNulls(base, reserved);
        hide OffsetsOf, Good, Apart, Proper;
        assert buffer[..0] == [];
      } else if Valid() {
        assert args[..argsLen] == args[..] && buffer[..0] == [];
        NullWords(base, args[..]);
      }
    }

    /* Clears the list; the memory stays. */
    method Init(flags: Flags, reserved: nat, memory: bool) returns (status: Status)
      requires buffer.Length > 0 ==> base > 0
      modifies this, args
      ensures status == if reserved > 0 && reserved >= old(args.Length) && !memory then Memory else Success
      ensures buffer == old(buffer) && (args == old(args) || fresh(args))
      ensures this.flags == flags && this.reserved == reserved
      ensures argsLen == reserved && bufferLen == 0 && kind == Pointers && base == old(base)
      ensures status == Success ==> Valid() && List() == Nulls(reserved)
      ensures status == Memory ==>
                args == old(args) && args[..] == old(args[..]) && (Valid() <==> args[..] == Zeros(reserved))
    {
      kind := Pointers;
      this.flags := flags;
      argsLen := reserved;
      this.reserved := reserved;
      bufferLen := 0;
      if reserved > 0 {
        var ok := GrowArgvArray(reserved, memory);
        if !ok {
          StaleSlots();
          return Memory;
        }
        ClearSlots();
      }
      hide Good, Apart, OffsetsOf, Proper, Names, Zeros, Nulls;
      ZerosAreNulls(base, reserved);
      return Success;
    }

    constructor (flags: Flags, reserved: nat, memory: bool)
      ensures fresh(args) && fresh(buffer) && this.flags == flags && this.reserved == reserved
      ensures Valid() <==> reserved == 0 || memory
      ensures Valid() ==> List() == Nulls(reserved)
    {
      args := new int[0];
      buffer := new Octet[0];
      new;
      var status := Init(flags, reserved, memory);
    }

    /* Copies one name, and the slash of a directory, behind the others. */
    method CopyName(e: Entry)
      requires bufferLen + |Marked(flags, e)| + 1 < buffer.Length
      modifies this`bufferLen, buffer
      ensures bufferLen == old(bufferLen) + |Marked(flags, e)| + 1
      ensures buffer[..bufferLen] == old(buffer[..bufferLen]) + Marked(flags, e) + [0]
    {
      ghost var used := buffer[..bufferLen];
      var len := |e.name| + 1;
      if e.isDir && flags.mark {
        len := len + 1;
      }
      StrCpy(bufferLen, []);
      assert buffer[..bufferLen] == buffer[..bufferLen + 1][..bufferLen] == used;
      StrCpy(bufferLen, e.name);
      assert buffer[..|used| + |e.name|] == buffer[..|used| + |e.name| + 1][..|used| + |e.name|] == used + e.name;
      bufferLen := bufferLen + len;
      if e.isDir && flags.mark {
        StrCpy(bufferLen - 2, [SLASH]);
        assert buffer[..bufferLen] == used + e.name + [SLASH] + [0];
      }
    }

    /* Puts one name at the end of the list. */
    method Enter(e: Entry)
      requires Valid() && kind == Offsets && 0 !in e.name
      requires argsLen < args.Length && bufferLen + |Marked(flags, e)| + 1 < buffer.Length
      modifies this`argsLen, this`bufferLen, args, buffer
      ensures Valid() && Contents() == Appended(old(Contents()), Marked(flags, e))
    {
      hide Good, Apart, OffsetsOf;
      AppendedApart(Contents(), Marked(flags, e));
      ghost var words, used := args[..argsLen], buffer[..bufferLen];
      SameOffsets(base, words);
      args[argsLen] := bufferLen;
      argsLen := argsLen + 1;
      assert args[..argsLen] == words + [|used|];
      CopyName(e);
      SameOffsets(base, args[..argsLen]);
    }

    /* The memory of a name fails. */
    ghost predicate Lacks(text: seq<Octet>, m: Alloc)
      reads this
    {
      || (argsLen + 1 >= args.Length && !m.argv)
      || (bufferLen + |text| + 1 >= buffer.Length && m.base == 0)
    }

    method AppendName(e: Entry, m: Alloc) returns (status: Status)
      requires Valid() && 0 !in e.name
      modifies this`kind, this`args, this`argsLen, this`base, this`buffer, this`bufferLen, args, buffer
      ensures Valid() && (args == old(args) || fresh(args)) && (buffer == old(buffer) || fresh(buffer))
      ensures status == if !Ignored(flags, e) && old(Lacks(Marked(flags, e), m)) then Memory else Success
      ensures List() == if status == Success then old(List()) + Kept(flags, e) else old(List())
    {
      SetArgvArrayType(Offsets);
      if flags.onlyDir && !e.isDir {
        return Success;
      }
      if flags.onlyFile && e.isDir {
        return Success;
      }
      if flags.noDot && e.isDir {
        if CharAt(e.name, 0) == DOT {
          if CharAt(e.name, 1) == 0 {
            return Success;
          }
          if CharAt(e.name, 1) == DOT && CharAt(e.name, 2) == 0 {
            return Success;
          }
        }
      }
      status := AppendKept(e, m);
    }

    /* The part of AppendName behind its special cases. */
    method AppendKept(e: Entry, m: Alloc) returns (status: Status)
      requires Valid() && 0 !in e.name && kind == Offsets
      modifies this`args, this`argsLen, this`base, this`buffer, this`bufferLen, args, buffer
      ensures Valid() && (args == old(args) || fresh(args)) && (buffer == old(buffer) || fresh(buffer))
      ensures status == if old(Lacks(Marked(flags, e), m)) then Memory else Success
      ensures List() == if status == Success then old(List()) + [Name(Marked(flags, e))] else old(List())
    {
      hide Good, Apart, OffsetsOf, Names, Proper;
      var ok := GrowArgvArray(argsLen + 1, m.argv);
      assert args[..argsLen] == old(args[..argsLen]);
      if !ok {
        return Memory;
      }
      var len := |e.name| + 1;
      if e.isDir && flags.mark {
        len := len + 1;
      }
      ok := GrowStringBuffer(bufferLen + len, m.base);
      assert buffer[..bufferLen] == old(buffer[..bufferLen]);
      Moved(old(base), base, args[..argsLen]);
      if !ok {
        return Memory;
      }
      AppendedNames(Contents(), Marked(flags, e));
      Enter(e);
      return Success;
    }

    method ArrangeArgs(start: nat, p: seq<nat>)
      requires start <= argsLen <= args.Length && Within(p, argsLen - start)
      modifies args
      ensures args[..argsLen] == old(args[..argsLen][..start] + Arranged(args[..argsLen][start..], p))
    {
      var words := args[..argsLen][start..];
      forall i | 0 <= i < |p| {
        args[start + i] := words[p[i]];
      }
    }

    /* qsort from slot `start` on. */
    method Sort(start: nat, sorter: seq<Name> -> seq<nat>)
      requires Valid() && start <= argsLen && IsSorter(sorter)
      modifies args
      ensures Valid() && SortedFrom(start, old(List()), List())
    {
      hide Good, Apart, OffsetsOf, Proper, IsPerm, Within, Sorted, IsSorter, Names, Rearranged, SortedFrom;
      var p := sorter(List()[start..]);
      SorterSorts(sorter, List()[start..]);
      SortsStore(Contents(), start, p);
      OffsetsRearranged(kind, base, args[..argsLen], start, p);
      RearrangedIs(Contents(), start, p);
      ArrangeArgs(start, p);
    }

    /* Goes through the matches of glob(), then sorts. */
    method AddMatches(ghost spec: seq<Octet>, w: World, sorter: seq<Name> -> seq<nat>) returns (status: Status)
      requires Valid() && ValidWorld(w) && IsSorter(sorter) && HasWildcard(spec) && w.glob.Paths?
      modifies this`kind, this`args, this`argsLen, this`base, this`buffer, this`bufferLen, args, buffer
      ensures Valid() && (args == old(args) || fresh(args)) && (buffer == old(buffer) || fresh(buffer))
      ensures Added(flags, reserved, old(List()), spec, w, status, List())
    {
      hide Contents, Valid, IsSorter, List, SortedFrom, Placed, Wanted, Found, Prepared;
      ghost var before, es := List(), Found(flags, spec, w);
      FoundPaths(flags, spec, w);
      WantedNone(flags, es);
      var startLen, k := argsLen, 0;
      status := Success;
      var more := true;
      while status == Success && more
        invariant Valid() && (args == old(args) || fresh(args)) && (buffer == old(buffer) || fresh(buffer))
        invariant 0 <= k <= |es| && more == (k < |es|)
        invariant status == Success ==> List() == before + Wanted(flags, es[..k])
        invariant status != Success ==> status == Memory && k > 0 && List() == before + Wanted(flags, es[..k - 1])
        invariant status != Success ==> Kept(flags, es[k - 1]) != [] && OutOfMemory(w.memory(k - 1))
        decreases |es| - k, status == Success
      {
        WantedStep(flags, es, k);
        status := AppendName(Prepared(w.glob.paths[k]), w.memory(k));
        k := k + 1;
        more := k < |w.glob.paths|;
      }
      ghost var got := Wanted(flags, es[..if status == Success then |es| else k - 1]);
      ghost var all := List();
      if argsLen > startLen && !flags.noSort {
        if flags.fullSort {
          startLen := reserved;
        }
        SetArgvArrayType(Pointers);
        Sort(startLen, sorter);
        SortedPlaced(flags, reserved, before, got, List());
      } else {
        UnsortedPlaced(flags, reserved, true, before, got);
      }
      assert AddedUpTo(flags, reserved, before, spec, w, status, List(), if status == Success then |es| else k - 1);
    }

    method Add(spec: seq<Octet>, w: World, sorter: seq<Name> -> seq<nat>) returns (status: Status)
      requires Valid() && 0 !in spec && ValidWorld(w) && IsSorter(sorter)
      modifies this`kind, this`args, this`argsLen, this`base, this`buffer, this`bufferLen, args, buffer
      ensures Valid() && (args == old(args) || fresh(args)) && (buffer == old(buffer) || fresh(buffer))
      ensures Added(flags, reserved, old(List()), spec, w, status, List())
    {
      hide Contents, Valid, IsSorter, List, Added;
      ghost var before := List();
      if !HasWildcard(spec) {
        if w.stat == Invalid {
          if flags.noCheck {
            status := AppendName(Entry(spec, false), w.memory(0));
            AddedOne(flags, reserved, before, spec, w, Entry(spec, false), status, List());
            return;
          }
          AddedNone(flags, reserved, before, spec, w);
          return NoMatch;
        }
        status := AppendName(Entry(spec, w.stat == Directory), w.memory(0));
        AddedOne(flags, reserved, before, spec, w, Entry(spec, w.stat == Directory), status, List());
        return;
      }
      if w.glob.Error? {
        status := w.glob.status;
        if status == NoMatch && flags.noCheck {
          var ok := AppendName(Entry(spec, false), w.memory(0));
          AddedOne(flags, reserved, before, spec, w, Entry(spec, false), ok, List());
          if ok != Success {
            status := ok;
          }
        } else {
          AddedNone(flags, reserved, before, spec, w);
        }
        return;
      }
      status := AddMatches(spec, w, sorter);
    }

    /* Adds one filespec after the other until one does not succeed. */
    method AddAll(requests: seq<Request>, sorter: seq<Name> -> seq<nat>) returns (status: Status, ghost lists: seq<seq<Name>>)
      requires Valid() && IsSorter(sorter) && forall i :: 0 <= i < |requests| ==> ValidRequest(requests[i])
      modifies this`kind, this`args, this`argsLen, this`base, this`buffer, this`bufferLen, args, buffer
      ensures Valid() && (args == old(args) || fresh(args)) && (buffer == old(buffer) || fresh(buffer))
      ensures lists != [] && lists[0] == old(List()) && Stopped(flags, reserved, requests, lists, status, List())
    {
      hide Contents, Valid, IsSorter, List, Added;
      lists := [List()];
      for n := 0 to |requests|
        invariant Valid() && (args == old(args) || fresh(args)) && (buffer == old(buffer) || fresh(buffer))
        invariant |lists| == n + 1 && lists[0] == old(List()) && lists[n] == List()
        invariant Run(flags, reserved, requests[..n], lists)
      {
        status := Add(requests[n].spec, requests[n].world, sorter);
        if status != Success {
          return;
        }
        RunStep(flags, reserved, requests, n, lists, List());
        lists := lists + [List()];
      }
      assert requests[..|requests|] == requests;
      return Success, lists;
    }

    /* The n-th slot, as the pointer the caller gets and the bytes it finds there. */
    method File(n: nat) returns (p: int)
      requires Valid() && n < argsLen
      modifies this`kind, args
      ensures Valid() && kind == Pointers && List() == old(List())
      ensures List()[n] == Null <==> p == 0
      ensures List()[n] != Null ==>
                var t, o := List()[n].text, p - base;
                0 <= o && o + |t| < buffer.Length && buffer[o..o + |t|] == t && buffer[o + |t|] == 0
    {
      SetArgvArrayType(Pointers);
      p := args[n];
      ghost var o := Offset(kind, base, args[..argsLen][n]);
      assert Contents().offs[n] == o;
      StringAt(Contents().buffer, o);
    }
  }

  /* Constructing a glob with enough memory for the reserved slots and adding
     filespecs.  Unless everything is sorted together: the reserved slots and one
     group per filespec.  If it is: the reserved slots and all the names, sorted
     exactly when the names appended since the last sort allow it. */
  method Collect(flags: Flags, reserved: nat, requests: seq<Request>, sorter: seq<Name> -> seq<nat>)
    returns (glob: Glob, status: Status, ghost groups: seq<seq<Name>>)
    requires IsSorter(sorter) && AllValid(requests)
    ensures fresh(glob) && glob.Valid()
    ensures status == Success && (flags.noSort || !flags.fullSort) ==>
              Groups(flags, requests, groups) && glob.List() == Nulls(reserved) + Concat(groups)
    ensures status == Success && !flags.noSort && flags.fullSort ==>
              && |glob.List()| >= reserved && glob.List()[..reserved] == Nulls(reserved)
              && multiset(glob.List()[reserved..]) == multiset(WantedBy(flags, requests))
              && (SortedIn(glob.List(), reserved) <==> StaysSorted(flags, requests, []))
  {
    hide Glob.Valid, Glob.List, IsSorter, Run, Groups, Concat, Nulls, StaysSorted, WantedBy;
    glob := new Glob(flags, reserved, true);
    ghost var lists;
    status, lists := glob.AddAll(requests, sorter);
    groups := [];
    if status == Success {
      assert requests[..|requests|] == requests;
      if flags.noSort || !flags.fullSort {
        groups := RunGroups(flags, reserved, requests, lists);
      } else {
        FullSortRun(flags, reserved, requests, lists);
        assert lists[0][reserved..] == [] && [] + WantedBy(flags, requests) == WantedBy(flags, requests);
        assert lists[0][..reserved] == lists[0];
      }
    }
  }

  /* A string in the used part of the buffer ends there. */
  lemma StringAt(buffer: seq<Octet>, o: int)
    requires At(buffer, o)
    ensures NameAt(buffer, o) == Null <==> o == -1
    ensures o != -1 ==> var t := NameAt(buffer, o).text;
                        o + |t| < |buffer| && buffer[o..o + |t|] == t && buffer[o + |t|] == 0
  {
    if o != -1 {
      var n := StrLen(buffer[o..]);
      assert buffer[o..][..n] == buffer[o..o + n] && buffer[o..][n] == buffer[o + n];
    }
  }

  function Zeros(n: nat): (s: seq<int>)
    ensures |s| == n
  {
    seq(n, _ => 0)
  }

  lemma ZerosAreNulls(base: nat, n: nat)
    ensures n == 0 ==> Zeros(n) == []
    ensures var st := Store(OffsetsOf(Pointers, base, Zeros(n)), []);
            Proper(Pointers, base, Zeros(n)) && Good(st) && Apart(st) && Names(st) == Nulls(n)
  {
  }

  /* With an empty buffer all pointers are NULL. */
  lemma NullWords(base: nat, words: seq<int>)
    requires Proper(Pointers, base, words) && Good(Store(OffsetsOf(Pointers, base, words), []))
    ensures words == Zeros(|words|)
  {
    var offs := OffsetsOf(Pointers, base, words);
    forall n | 0 <= n < |words|
      ensures words[n] == 0
    {
      assert At([], offs[n]);
    }
  }

  lemma SameOffsets(base: nat, words: seq<int>)
    ensures OffsetsOf(Offsets, base, words) == words
  {
  }

  lemma OffsetsRearranged(kind: Kind, base: nat, words: seq<int>, start: nat, p: seq<nat>)
    requires start <= |words| && Within(p, |words| - start) && Proper(kind, base, words)
    ensures var words' := words[..start] + Arranged(words[start..], p);
            && Proper(kind, base, words')
            && OffsetsOf(kind, base, words') ==
               OffsetsOf(kind, base, words)[..start] + Arranged(OffsetsOf(kind, base, words)[start..], p)
  {
    var words', offs := words[..start] + Arranged(words[start..], p), OffsetsOf(kind, base, words);
    var offs' := offs[..start] + Arranged(offs[start..], p);
    forall n | 0 <= n < |words'|
      ensures words'[n] in words && OffsetsOf(kind, base, words')[n] == offs'[n]
    {
      var n' := if n < start then n else start + p[n - start];
      assert words'[n] == words[n'] && offs'[n] == offs[n'];
    }
  }

  /* While the words are offsets the buffer may move. */
  lemma Moved(base: nat, base': nat, words: seq<int>)
    ensures OffsetsOf(Offsets, base, words) == OffsetsOf(Offsets, base', words)
    ensures Proper(Offsets, base', words)
  {
  }
}
