/**
What one Add of SimpleGlob.h may do to the list of names, for any answer of
the file system and of the allocator, and what follows for runs of Adds.
*/
module GlobSpec {
  import opened GlobStore
  import opened Swar

  const DOT: Octet := 46
  const SLASH: Octet := 47
  const STAR: Octet := 42
  const QUESTION: Octet := 63

  /* SG_GLOB_ERR and SG_GLOB_TILDE only go on to glob() and are not here. */
  datatype Flags = Flags(mark: bool, noSort: bool, noCheck: bool, onlyDir: bool, onlyFile: bool,
                         noDot: bool, fullSort: bool)

  datatype Status = Success | NoMatch | Memory | Failure

  datatype FileType = Invalid | File | Directory

  /* glob() with GLOB_MARK: a path that ends in a slash is a directory. */
  datatype Globbed = Paths(paths: seq<seq<Octet>>) | Error(status: Status)

  /* What realloc answers while one name is appended: whether the argv array may
     grow, and the address of the string buffer if that grows, 0 for NULL. */
  datatype Alloc = Alloc(argv: bool, base: nat)

  predicate OutOfMemory(m: Alloc) {
    !m.argv || m.base == 0
  }

  datatype World = World(stat: FileType, glob: Globbed, memory: nat -> Alloc)

  datatype Entry = Entry(name: seq<Octet>, isDir: bool)

  ghost predicate ValidWorld(w: World) {
    if w.glob.Error? then w.glob.status != Success
    else w.glob.paths != [] && forall i :: 0 <= i < |w.glob.paths| ==> w.glob.paths[i] != [] && 0 !in w.glob.paths[i]
  }

  predicate HasWildcard(spec: seq<Octet>) {
    STAR in spec || QUESTION in spec
  }

  /* FilePrep */
  function Prepared(path: seq<Octet>): (e: Entry)
    requires path != []
    ensures if e.isDir then path == e.name + [SLASH] else path == e.name
    ensures 0 !in path ==> 0 !in e.name
  {
    var n := |path| - 1;
    if path[n] == SLASH then Entry(path[..n], true) else Entry(path, false)
  }

  /* The entries that one Add goes through, and its answer if memory lasts. */
  function Found(flags: Flags, spec: seq<Octet>, w: World): seq<Entry>
    requires HasWildcard(spec) && w.glob.Paths? ==> forall i :: 0 <= i < |w.glob.paths| ==> w.glob.paths[i] != []
  {
    if !HasWildcard(spec) then
      if w.stat == Invalid then if flags.noCheck then [Entry(spec, false)] else []
      else [Entry(spec, w.stat == Directory)]
    else if w.glob.Error? then
      if w.glob.status == NoMatch && flags.noCheck then [Entry(spec, false)] else []
    else seq(|w.glob.paths|, i requires 0 <= i < |w.glob.paths| => Prepared(w.glob.paths[i]))
  }

  function Reply(flags: Flags, spec: seq<Octet>, w: World): Status {
    if !HasWildcard(spec) then if w.stat == Invalid && !flags.noCheck then NoMatch else Success
    else if w.glob.Error? then w.glob.status
    else Success
  }

  /* The special cases that AppendName passes over. */
  predicate Ignored(flags: Flags, e: Entry) {
    || (flags.onlyDir && !e.isDir)
    || (flags.onlyFile && e.isDir)
    || (flags.noDot && e.isDir && (e.name == [DOT] || e.name == [DOT, DOT]))
  }

  function Marked(flags: Flags, e: Entry): seq<Octet> {
    if e.isDir && flags.mark then e.name + [SLASH] else e.name
  }

  function Kept(flags: Flags, e: Entry): seq<Name> {
    if Ignored(flags, e) then [] else [Name(Marked(flags, e))]
  }

  function Wanted(flags: Flags, es: seq<Entry>): seq<Name> {
    if es == [] then [] else Wanted(flags, es[..|es| - 1]) + Kept(flags, es[|es| - 1])
  }

  /* A filespec is a pattern if it has a star or a question mark. */
  lemma WildcardIs(spec: seq<Octet>)
    ensures HasWildcard(spec) <==> '*' as int in spec || '?' as int in spec
  {
  }

  /* What becomes of a path that glob() returns, which ends in a slash if it is a
     directory.  It is passed over if only directories, or only files, are wanted
     and it is not one, and if the two special directories are not wanted and it
     is one of them.  Otherwise it is kept as it is, and without the slash unless
     directories are to be marked. */
  lemma KeptPath(flags: Flags, path: seq<Octet>)
    requires path != []
    ensures var isDir := path[|path| - 1] == '/' as int;
            Kept(flags, Prepared(path)) ==
            if flags.onlyDir && !isDir then []
            else if flags.onlyFile && isDir then []
            else if flags.noDot && (path == ['.' as int, '/' as int] || path == ['.' as int, '.' as int, '/' as int]) then []
            else if isDir && !flags.mark then [Name(path[..|path| - 1])]
            else [Name(path)]
  {
    var n := |path| - 1;
    if path[n] == '/' as int {
      assert path == path[..n] + ['/' as int];
      if path[..n] == [DOT] {
        assert path == ['.' as int, '/' as int];
      }
      if path[..n] == [DOT, DOT] {
        assert path == ['.' as int, '.' as int, '/' as int];
      }
    }
  }

  lemma FoundPaths(flags: Flags, spec: seq<Octet>, w: World)
    requires ValidWorld(w) && HasWildcard(spec) && w.glob.Paths?
    ensures |Found(flags, spec, w)| == |w.glob.paths| > 0
    ensures forall i :: 0 <= i < |w.glob.paths| ==> Found(flags, spec, w)[i] == Prepared(w.glob.paths[i])
    ensures Reply(flags, spec, w) == Success
  {
  }

  lemma WantedNone(flags: Flags, es: seq<Entry>)
    ensures Wanted(flags, es[..0]) == []
  {
  }

  lemma WantedStep(flags: Flags, es: seq<Entry>, k: nat)
    requires k < |es|
    ensures Wanted(flags, es[..k + 1]) == Wanted(flags, es[..k]) + Kept(flags, es[k])
  {
    assert es[..k + 1][..k] == es[..k];
  }

  /* How the list may look after `got` was appended by an Add that sorts, or by
     one that does not. */
  ghost predicate Placed(flags: Flags, reserved: nat, sorts: bool, before: seq<Name>, got: seq<Name>, after: seq<Name>)
    requires reserved <= |before|
  {
    if !sorts || flags.noSort || got == [] then after == before + got
    else
      var start := if flags.fullSort then reserved else |before|;
      |after| == |before + got| && after[..start] == before[..start] && Sorted(after[start..]) &&
      multiset(after[start..]) == multiset((before + got)[start..])
  }

  lemma SortedPlaced(flags: Flags, reserved: nat, before: seq<Name>, got: seq<Name>, after: seq<Name>)
    requires reserved <= |before| && !flags.noSort && got != []
    requires SortedFrom(if flags.fullSort then reserved else |before|, before + got, after)
    ensures Placed(flags, reserved, true, before, got, after)
  {
    var start := if flags.fullSort then reserved else |before|;
    assert (before + got)[..start] == before[..start];
  }

  lemma UnsortedPlaced(flags: Flags, reserved: nat, sorts: bool, before: seq<Name>, got: seq<Name>)
    requires reserved <= |before| && (!sorts || flags.noSort || got == [])
    ensures Placed(flags, reserved, sorts, before, got, before + got)
  {
  }

  /* The first k entries were gone through; memory ran out at the next one
     unless there is none. */
  ghost predicate AddedUpTo(flags: Flags, reserved: nat, before: seq<Name>, spec: seq<Octet>, w: World,
                            status: Status, after: seq<Name>, k: nat)
    requires ValidWorld(w) && reserved <= |before|
  {
    var es := Found(flags, spec, w);
    && k <= |es|
    && status == (if k == |es| then Reply(flags, spec, w) else Memory)
    && (k < |es| ==> Kept(flags, es[k]) != [] && OutOfMemory(w.memory(k)))
    && Placed(flags, reserved, HasWildcard(spec) && w.glob.Paths?, before, Wanted(flags, es[..k]), after)
  }

  ghost predicate Added(flags: Flags, reserved: nat, before: seq<Name>, spec: seq<Octet>, w: World,
                        status: Status, after: seq<Name>)
    requires ValidWorld(w) && reserved <= |before|
  {
    exists k :: AddedUpTo(flags, reserved, before, spec, w, status, after, k)
  }

  // ---- One Add ----

  /* An Add that goes through a single entry and does not sort. */
  lemma AddedOne(flags: Flags, reserved: nat, before: seq<Name>, spec: seq<Octet>, w: World, e: Entry,
                 ok: Status, after: seq<Name>)
    requires ValidWorld(w) && reserved <= |before| && Found(flags, spec, w) == [e]
    requires !(HasWildcard(spec) && w.glob.Paths?)
    requires ok == Success || (ok == Memory && !Ignored(flags, e) && OutOfMemory(w.memory(0)))
    requires after == if ok == Success then before + Kept(flags, e) else before
    ensures Added(flags, reserved, before, spec, w, if ok == Success then Reply(flags, spec, w) else Memory, after)
  {
    hide Found, Reply;
    var k := if ok == Success then 1 else 0;
    assert [e][..1] == [e] && [e][..0] == [];
    WantedNone(flags, [e]);
    WantedStep(flags, [e], 0);
    assert AddedUpTo(flags, reserved, before, spec, w, if ok == Success then Reply(flags, spec, w) else Memory, after, k);
  }

  lemma AddedNone(flags: Flags, reserved: nat, before: seq<Name>, spec: seq<Octet>, w: World)
    requires ValidWorld(w) && reserved <= |before| && Found(flags, spec, w) == []
    requires !(HasWildcard(spec) && w.glob.Paths?)
    ensures Added(flags, reserved, before, spec, w, Reply(flags, spec, w), before)
  {
    hide Found, Reply;
    assert AddedUpTo(flags, reserved, before, spec, w, Reply(flags, spec, w), before, 0);
  }

  lemma PlacedKeeps(flags: Flags, reserved: nat, sorts: bool, before: seq<Name>, got: seq<Name>, after: seq<Name>)
    requires reserved <= |before| && Placed(flags, reserved, sorts, before, got, after)
    ensures |after| == |before| + |got| && after[..reserved] == before[..reserved]
    ensures multiset(after) == multiset(before) + multiset(got)
  {
    var start := if flags.fullSort then reserved else |before|;
    var all := before + got;
    assert multiset(all) == multiset(before) + multiset(got);
    if !(!sorts || flags.noSort || got == []) {
      assert all == all[..start] + all[start..] && after == after[..start] + after[start..];
      assert all[..start] == before[..start];
      assert after[..reserved] == after[..start][..reserved];
    }
  }

  /* One group: the matches that pass the filters, sorted unless that is
     switched off. */
  ghost predicate Group(flags: Flags, spec: seq<Octet>, w: World, g: seq<Name>)
    requires ValidWorld(w)
  {
    var wanted := Wanted(flags, Found(flags, spec, w));
    multiset(g) == multiset(wanted) && if flags.noSort then g == wanted else Sorted(g)
  }

  lemma PlacedGroup(flags: Flags, reserved: nat, sorts: bool, before: seq<Name>, got: seq<Name>, after: seq<Name>)
    returns (g: seq<Name>)
    requires reserved <= |before| && Placed(flags, reserved, sorts, before, got, after)
    requires (sorts || |got| <= 1) && (flags.noSort || !flags.fullSort)
    ensures after == before + g && multiset(g) == multiset(got)
    ensures if flags.noSort then g == got else Sorted(g)
  {
    hide Le;
    g := after[|before|..];
    if sorts && !flags.noSort && got != [] {
      assert (before + got)[|before|..] == got;
      assert after == after[..|before|] + g;
    } else {
      assert g == got;
    }
  }

  lemma AddedGroup(flags: Flags, reserved: nat, before: seq<Name>, spec: seq<Octet>, w: World, after: seq<Name>)
    returns (g: seq<Name>)
    requires ValidWorld(w) && reserved <= |before| && (flags.noSort || !flags.fullSort)
    requires Added(flags, reserved, before, spec, w, Success, after)
    ensures after == before + g && Group(flags, spec, w, g)
  {
    hide Placed, Wanted, Kept;
    var k: nat :| AddedUpTo(flags, reserved, before, spec, w, Success, after, k);
    var es := Found(flags, spec, w);
    assert es[..k] == es;
    ShortWanted(flags, es);
    g := PlacedGroup(flags, reserved, HasWildcard(spec) && w.glob.Paths?, before, Wanted(flags, es), after);
  }

  lemma {:induction false} ShortWanted(flags: Flags, es: seq<Entry>)
    ensures |Wanted(flags, es)| <= |es|
  {
    if es != [] {
      ShortWanted(flags, es[..|es| - 1]);
    }
  }

  /* SG_GLOB_NOCHECK, for a filespec that matches nothing and memory for one name:
     the Add puts it on the list as it is, unless only directories are wanted, and
     calls that a success exactly when it has no wildcard. */
  lemma NoCheckAdds(flags: Flags, reserved: nat, before: seq<Name>, spec: seq<Octet>, w: World, status: Status,
                    after: seq<Name>)
    requires ValidWorld(w) && reserved <= |before| && flags.noCheck && !OutOfMemory(w.memory(0))
    requires if HasWildcard(spec) then w.glob == Error(NoMatch) else w.stat == Invalid
    ensures Added(flags, reserved, before, spec, w, status, after) <==>
            && status == (if HasWildcard(spec) then NoMatch else Success)
            && after == if flags.onlyDir then before else before + [Name(spec)]
  {
    var e := Entry(spec, false);
    assert Found(flags, spec, w) == [e];
    assert [e][..1] == [e];
    WantedNone(flags, [e]);
    WantedStep(flags, [e], 0);
    if Added(flags, reserved, before, spec, w, status, after) {
      var k: nat :| AddedUpTo(flags, reserved, before, spec, w, status, after, k);
      assert k == 1;
    }
    AddedOne(flags, reserved, before, spec, w, e, Success, before + Kept(flags, e));
    assert before + [] == before;
  }

  /* The other answers to a filespec: without SG_GLOB_NOCHECK nothing that matches
     is "no match", and other failures of glob() are passed on; neither changes the
     list. */
  lemma FailedAdds(flags: Flags, reserved: nat, before: seq<Name>, spec: seq<Octet>, w: World, status: Status,
                   after: seq<Name>)
    requires ValidWorld(w) && reserved <= |before|
    requires if HasWildcard(spec) then w.glob.Error? && (w.glob.status == NoMatch ==> !flags.noCheck)
             else w.stat == Invalid && !flags.noCheck
    ensures Added(flags, reserved, before, spec, w, status, after) <==>
            status == (if HasWildcard(spec) then w.glob.status else NoMatch) && after == before
  {
    hide Sorted;
    assert Found(flags, spec, w) == [];
    if Added(flags, reserved, before, spec, w, status, after) {
      var k: nat :| AddedUpTo(flags, reserved, before, spec, w, status, after, k);
      assert k == 0 && Found(flags, spec, w)[..0] == [];
    }
    AddedNone(flags, reserved, before, spec, w);
  }

  /* A plain name that is there, with memory for it. */
  lemma PlainAdds(flags: Flags, reserved: nat, before: seq<Name>, spec: seq<Octet>, w: World, status: Status,
                  after: seq<Name>)
    requires ValidWorld(w) && reserved <= |before| && !OutOfMemory(w.memory(0))
    requires !HasWildcard(spec) && w.stat != Invalid
    ensures Added(flags, reserved, before, spec, w, status, after) <==>
            && status == Success
            && after == before + var isDir := w.stat == Directory;
                                 if flags.onlyDir && !isDir then []
                                 else if flags.onlyFile && isDir then []
                                 else if flags.noDot && isDir && (spec == ['.' as int] || spec == ['.' as int, '.' as int]) then []
                                 else if isDir && flags.mark then [Name(spec + ['/' as int])]
                                 else [Name(spec)]
  {
    hide Sorted;
    var e := Entry(spec, w.stat == Directory);
    assert Found(flags, spec, w) == [e];
    assert [e][..1] == [e];
    WantedNone(flags, [e]);
    WantedStep(flags, [e], 0);
    if Added(flags, reserved, before, spec, w, status, after) {
      var k: nat :| AddedUpTo(flags, reserved, before, spec, w, status, after, k);
      assert k == 1;
    }
    AddedOne(flags, reserved, before, spec, w, e, Success, before + Kept(flags, e));
  }

  // ---- Any number of Adds ----

  datatype Request = Request(spec: seq<Octet>, world: World)

  ghost predicate ValidRequest(r: Request) {
    0 !in r.spec && ValidWorld(r.world)
  }

  function Concat<T>(ss: seq<seq<T>>): seq<T> {
    if ss == [] then [] else Concat(ss[..|ss| - 1]) + ss[|ss| - 1]
  }

  lemma ConcatPush<T>(ss: seq<seq<T>>, s: seq<T>)
    ensures Concat(ss + [s]) == Concat(ss) + s
  {
    assert (ss + [s])[..|ss|] == ss;
  }

  /* The lists that a run of successful Adds goes through. */
  ghost predicate Run(flags: Flags, reserved: nat, requests: seq<Request>, lists: seq<seq<Name>>) {
    && |lists| == |requests| + 1
    && (forall i :: 0 <= i < |lists| ==> reserved <= |lists[i]|)
    && (forall i :: 0 <= i < |requests| ==>
          ValidRequest(requests[i]) &&
          Added(flags, reserved, lists[i], requests[i].spec, requests[i].world, Success, lists[i + 1]))
  }

  lemma RunStep(flags: Flags, reserved: nat, requests: seq<Request>, n: nat, lists: seq<seq<Name>>, list: seq<Name>)
    requires n < |requests| && ValidRequest(requests[n]) && Run(flags, reserved, requests[..n], lists)
    requires reserved <= |list|
    requires Added(flags, reserved, lists[n], requests[n].spec, requests[n].world, Success, list)
    ensures Run(flags, reserved, requests[..n + 1], lists + [list])
  {
    hide Added;
    assert forall i :: 0 <= i < n ==> requests[..n + 1][i] == requests[..n][i];
  }

  /* The lists up to the first Add that did not succeed, if any. */
  ghost predicate Stopped(flags: Flags, reserved: nat, requests: seq<Request>, lists: seq<seq<Name>>,
                          status: Status, after: seq<Name>)
    requires lists != []
  {
    var n := |lists| - 1;
    && n <= |requests| && Run(flags, reserved, requests[..n], lists)
    && if status == Success then n == |requests| && after == lists[n]
       else
         && n < |requests| && ValidRequest(requests[n]) && reserved <= |lists[n]|
         && Added(flags, reserved, lists[n], requests[n].spec, requests[n].world, status, after)
  }

  ghost predicate Groups(flags: Flags, requests: seq<Request>, groups: seq<seq<Name>>) {
    && |groups| == |requests|
    && (forall i :: 0 <= i < |requests| ==>
          ValidRequest(requests[i]) &&
          Group(flags, requests[i].spec, requests[i].world, groups[i]))
  }

  /* Unless the whole array is sorted, the list grows by one group per Add, in
     the order of the Adds. */
  lemma {:induction false} RunGroups(flags: Flags, reserved: nat, requests: seq<Request>, lists: seq<seq<Name>>)
    returns (groups: seq<seq<Name>>)
    requires Run(flags, reserved, requests, lists) && (flags.noSort || !flags.fullSort)
    ensures Groups(flags, requests, groups)
    ensures lists[|requests|] == lists[0] + Concat(groups)
    decreases |requests|
  {
    hide Added, Group, Concat;
    if requests == [] {
      groups := [];
      assert Concat<Name>([]) == [] by { ConcatNone<Name>(); }
    } else {
      var n := |requests| - 1;
      assert forall i :: 0 <= i <= n ==> lists[..n + 1][i] == lists[i];
      groups := RunGroups(flags, reserved, requests[..n], lists[..n + 1]);
      var g := AddedGroup(flags, reserved, lists[n], requests[n].spec, requests[n].world, lists[n + 1]);
      ConcatPush(groups, g);
      groups := groups + [g];
    }
  }

  lemma ConcatNone<T>()
    ensures Concat<T>([]) == []
  {
  }

  // ---- Sorting everything ----

  /* With SG_GLOB_FULLSORT the whole array is to be sorted.  A name without
     wildcards is only appended.  So an Add leaves a sorted list exactly when it
     sorts, or when the list was sorted and the name that is appended, if one is,
     belongs at the end. */
  lemma FullSortExactly(flags: Flags, reserved: nat, before: seq<Name>, spec: seq<Octet>, w: World, after: seq<Name>)
    requires ValidWorld(w) && reserved <= |before| && flags.fullSort && !flags.noSort
    requires Added(flags, reserved, before, spec, w, Success, after)
    ensures |after| >= reserved
    ensures var kept := Wanted(flags, Found(flags, spec, w));
            Sorted(after[reserved..]) <==>
            || (HasWildcard(spec) && kept != [])
            || (Sorted(before[reserved..]) &&
                (kept == [] || |before| == reserved || Le(before[|before| - 1], kept[0])))
  {
    hide Le, Wanted, Kept;
    var k: nat :| AddedUpTo(flags, reserved, before, spec, w, Success, after, k);
    var es := Found(flags, spec, w);
    assert es[..k] == es;
    var kept := Wanted(flags, es);
    ShortWanted(flags, es);
    if HasWildcard(spec) && kept != [] {
    } else if kept == [] {
      assert after == before;
    } else {
      assert |es| == 1 && kept == [kept[0]];
      assert after == before + kept && after[reserved..] == before[reserved..] + kept;
      SortedJoin(before[reserved..], kept);
      if Sorted(before[reserved..]) {
        SortedPush(before[reserved..], kept[0]);
      }
    }
  }

  /* Every name of s may stand before every name of t. */
  ghost predicate Below(s: seq<Name>, t: seq<Name>) {
    forall x, y :: x in s && y in t ==> Le(x, y)
  }

  lemma SortedJoin(s: seq<Name>, t: seq<Name>)
    ensures Sorted(s + t) <==> Sorted(s) && Sorted(t) && Below(s, t)
  {
    hide Le;
    var u := s + t;
    if Sorted(u) {
      assert forall i :: 0 <= i < |s| ==> s[i] == u[i];
      assert forall i :: 0 <= i < |t| ==> t[i] == u[|s| + i];
      forall x, y | x in s && y in t
        ensures Le(x, y)
      {
        var i :| 0 <= i < |s| && s[i] == x;
        var j :| 0 <= j < |t| && t[j] == y;
        assert Le(u[i], u[|s| + j]);
      }
    }
  }

  /* The names that a request adds. */
  ghost function Wants(flags: Flags, r: Request): seq<Name>
    requires ValidRequest(r)
  {
    Wanted(flags, Found(flags, r.spec, r.world))
  }

  /* The request goes through the sort. */
  ghost predicate Sorts(flags: Flags, r: Request)
    requires ValidRequest(r)
  {
    HasWildcard(r.spec) && Wants(flags, r) != []
  }

  ghost predicate AllValid(rs: seq<Request>) {
    forall i :: 0 <= i < |rs| ==> ValidRequest(rs[i])
  }

  /* How many requests there are up to the last one that sorts, if any. */
  ghost function LastSort(flags: Flags, rs: seq<Request>): (n: nat)
    requires AllValid(rs)
    ensures n <= |rs|
  {
    if rs == [] then 0
    else if Sorts(flags, rs[|rs| - 1]) then |rs|
    else LastSort(flags, rs[..|rs| - 1])
  }

  lemma {:induction false} LastSortIs(flags: Flags, rs: seq<Request>, n: nat)
    requires AllValid(rs) && n <= |rs|
    ensures LastSort(flags, rs) == n <==>
            (n > 0 ==> Sorts(flags, rs[n - 1])) && forall i :: n <= i < |rs| ==> !Sorts(flags, rs[i])
    decreases |rs|
  {
    hide Sorts;
    var last := |rs| - 1;
    if rs != [] && !Sorts(flags, rs[last]) {
      if n <= last {
        LastSortIs(flags, rs[..last], n);
        assert forall i :: 0 <= i < last ==> rs[..last][i] == rs[i];
      }
    }
  }

  /* All names that the requests want, in their order. */
  ghost function WantedBy(flags: Flags, rs: seq<Request>): seq<Name>
    requires AllValid(rs)
  {
    if rs == [] then [] else WantedBy(flags, rs[..|rs| - 1]) + Wants(flags, rs[|rs| - 1])
  }

  /* What is in the list after a run that sorts everything: in front, the first
     `n` slots of the result, sorted if there was a sort at all; behind them the
     names appended since the last sort, in the order of their requests. */
  ghost predicate FrontAndRest(flags: Flags, reserved: nat, rs: seq<Request>, first: seq<Name>, last: seq<Name>, front: seq<Name>)
    requires AllValid(rs) && reserved <= |first|
  {
    var n := LastSort(flags, rs);
    && last == first[..reserved] + front + WantedBy(flags, rs[n..])
    && multiset(front) == multiset(first[reserved..] + WantedBy(flags, rs[..n]))
    && (if n > 0 then Sorted(front) else front == first[reserved..])
  }

  lemma {:induction false} RunFullSort(flags: Flags, reserved: nat, rs: seq<Request>, lists: seq<seq<Name>>)
    returns (front: seq<Name>)
    requires Run(flags, reserved, rs, lists) && flags.fullSort && !flags.noSort
    ensures AllValid(rs) && FrontAndRest(flags, reserved, rs, lists[0], lists[|rs|], front)
    decreases |rs|
  {
    hide Added, Wanted, Found, Sorted, LastSort, WantedBy, FrontAndRest;
    assert AllValid(rs);
    if rs == [] {
      front := lists[0][reserved..];
      NoRun(flags, reserved, lists[0]);
      assert rs == [];
    } else {
      var n := |rs| - 1;
      assert forall i :: 0 <= i <= n ==> lists[..n + 1][i] == lists[i];
      var before := RunFullSort(flags, reserved, rs[..n], lists[..n + 1]);
      if Sorts(flags, rs[n]) {
        front := SortStep(flags, reserved, rs, lists[0], lists[n], before, lists[n + 1]);
      } else {
        front := before;
        PlainStep(flags, reserved, rs, lists[0], lists[n], before, lists[n + 1]);
      }
    }
  }

  lemma NoRun(flags: Flags, reserved: nat, list: seq<Name>)
    requires reserved <= |list|
    ensures FrontAndRest(flags, reserved, [], list, list, list[reserved..])
  {
    hide Sorted;
    var none: seq<Request> := [];
    assert LastSort(flags, none) == 0 && none[0..] == none && none[..0] == none;
    assert WantedBy(flags, none) == [];
    assert list == list[..reserved] + list[reserved..] + [];
    assert list[reserved..] + [] == list[reserved..];
  }

  lemma SortStep(flags: Flags, reserved: nat, rs: seq<Request>, first: seq<Name>, list: seq<Name>, before: seq<Name>,
                 after: seq<Name>)
    returns (front: seq<Name>)
    requires rs != [] && AllValid(rs) && flags.fullSort && !flags.noSort && Sorts(flags, rs[|rs| - 1])
    requires reserved <= |first| && reserved <= |list|
    requires FrontAndRest(flags, reserved, rs[..|rs| - 1], first, list, before)
    requires Added(flags, reserved, list, rs[|rs| - 1].spec, rs[|rs| - 1].world, Success, after)
    ensures FrontAndRest(flags, reserved, rs, first, after, front)
  {
    hide Sorted, Wanted, Found, Added, WantedBy, LastSort;
    var n := |rs| - 1;
    var r, k := rs[n], LastSort(flags, rs[..n]);
    var kept := AddedSorted(flags, reserved, list, r.spec, r.world, after);
    front := after[reserved..];
    SortIsLast(flags, rs);
    WantedSplit(flags, rs[..n], k);
    var a, b := WantedBy(flags, rs[..n][..k]), WantedBy(flags, rs[..n][k..]);
    assert list[..reserved] == first[..reserved] && list[reserved..] == before + b;
    Regroup(first[reserved..], a, b, before, kept, front);
    assert after == after[..reserved] + front + [];
  }

  lemma SortIsLast(flags: Flags, rs: seq<Request>)
    requires rs != [] && AllValid(rs) && Sorts(flags, rs[|rs| - 1])
    ensures LastSort(flags, rs) == |rs| && rs[..|rs|] == rs && WantedBy(flags, rs[|rs|..]) == []
    ensures WantedBy(flags, rs) ==
            WantedBy(flags, rs[..|rs| - 1]) + Wants(flags, rs[|rs| - 1])
  {
    hide Wants;
  }

  lemma Regroup(f: seq<Name>, a: seq<Name>, b: seq<Name>, before: seq<Name>, kept: seq<Name>, front: seq<Name>)
    requires multiset(before) == multiset(f + a) && multiset(front) == multiset(before + b + kept)
    ensures multiset(front) == multiset(f + (a + b + kept))
  {
    assert multiset(f + (a + b + kept)) == multiset(f) + multiset(a) + multiset(b) + multiset(kept);
  }

  lemma AddedSorted(flags: Flags, reserved: nat, before: seq<Name>, spec: seq<Octet>, w: World, after: seq<Name>)
    returns (kept: seq<Name>)
    requires ValidWorld(w) && reserved <= |before| && flags.fullSort && !flags.noSort
    requires HasWildcard(spec) && Wanted(flags, Found(flags, spec, w)) != []
    requires Added(flags, reserved, before, spec, w, Success, after)
    ensures kept == Wanted(flags, Found(flags, spec, w))
    ensures |after| == |before| + |kept| && after[..reserved] == before[..reserved] && Sorted(after[reserved..])
    ensures multiset(after[reserved..]) == multiset(before[reserved..] + kept)
  {
    hide Wanted, Kept, Le;
    var k: nat :| AddedUpTo(flags, reserved, before, spec, w, Success, after, k);
    var es := Found(flags, spec, w);
    assert es[..k] == es;
    kept := Wanted(flags, es);
    assert (before + kept)[reserved..] == before[reserved..] + kept;
  }

  lemma AddedPlain(flags: Flags, reserved: nat, before: seq<Name>, spec: seq<Octet>, w: World, after: seq<Name>)
    requires ValidWorld(w) && reserved <= |before|
    requires !HasWildcard(spec) || Wanted(flags, Found(flags, spec, w)) == []
    requires Added(flags, reserved, before, spec, w, Success, after)
    ensures after == before + Wanted(flags, Found(flags, spec, w))
  {
    hide Wanted, Kept, Le;
    var k: nat :| AddedUpTo(flags, reserved, before, spec, w, Success, after, k);
    var es := Found(flags, spec, w);
    assert es[..k] == es;
  }

  lemma {:induction false} WantedSplit(flags: Flags, rs: seq<Request>, k: nat)
    requires AllValid(rs) && k <= |rs|
    ensures AllValid(rs[..k]) && AllValid(rs[k..])
    ensures WantedBy(flags, rs) == WantedBy(flags, rs[..k]) + WantedBy(flags, rs[k..])
    decreases |rs|
  {
    hide Wants, ValidRequest;
    if k == |rs| {
      assert rs[..k] == rs && rs[k..] == [];
    } else {
      var n := |rs| - 1;
      WantedSplit(flags, rs[..n], k);
      Slices(rs, k);
      var a, b, c := WantedBy(flags, rs[..k]), WantedBy(flags, rs[..n][k..]), Wants(flags, rs[n]);
      assert WantedBy(flags, rs[k..]) == b + c;
      assert a + b + c == a + (b + c);
    }
  }

  lemma Slices<T>(s: seq<T>, k: nat)
    requires k < |s|
    ensures var n := |s| - 1;
            s[..n][..k] == s[..k] && s[..n][k..] == s[k..][..n - k] && s[k..][n - k] == s[n]
  {
  }

  lemma PlainStep(flags: Flags, reserved: nat, rs: seq<Request>, first: seq<Name>, list: seq<Name>, front: seq<Name>,
                  after: seq<Name>)
    requires rs != [] && AllValid(rs) && flags.fullSort && !flags.noSort && !Sorts(flags, rs[|rs| - 1])
    requires reserved <= |first| && reserved <= |list|
    requires FrontAndRest(flags, reserved, rs[..|rs| - 1], first, list, front)
    requires Added(flags, reserved, list, rs[|rs| - 1].spec, rs[|rs| - 1].world, Success, after)
    ensures FrontAndRest(flags, reserved, rs, first, after, front)
  {
    hide Sorted, Wanted, Found, Added;
    var n := |rs| - 1;
    var k := LastSort(flags, rs[..n]);
    AddedPlain(flags, reserved, list, rs[n].spec, rs[n].world, after);
    assert LastSort(flags, rs) == k;
    Slices(rs, k);
  }

  /* Over a whole run: the list is sorted in the end exactly when it was sorted by
     one of the Adds, or to begin with, and the names appended since are sorted
     and belong behind all the names that came before. */
  lemma FullSortRun(flags: Flags, reserved: nat, rs: seq<Request>, lists: seq<seq<Name>>)
    requires Run(flags, reserved, rs, lists) && flags.fullSort && !flags.noSort
    ensures AllValid(rs) && reserved <= |lists[0]| && reserved <= |lists[|rs|]|
    ensures lists[|rs|][..reserved] == lists[0][..reserved]
    ensures multiset(lists[|rs|][reserved..]) == multiset(lists[0][reserved..] + WantedBy(flags, rs))
    ensures SortedIn(lists[|rs|], reserved) <==> StaysSorted(flags, rs, lists[0][reserved..])
  {
    hide Added, Sorted, LastSort, WantedBy, FrontAndRest, StaysSorted, SortedIn;
    var front := RunFullSort(flags, reserved, rs, lists);
    FrontKeeps(flags, reserved, rs, lists[0], lists[|rs|], front);
    FrontSorted(flags, reserved, rs, lists[0], lists[|rs|], front);
  }

  lemma FrontKeeps(flags: Flags, reserved: nat, rs: seq<Request>, first: seq<Name>, last: seq<Name>, front: seq<Name>)
    requires AllValid(rs) && reserved <= |first| && FrontAndRest(flags, reserved, rs, first, last, front)
    ensures reserved <= |last| && last[..reserved] == first[..reserved]
    ensures last[reserved..] == front + WantedBy(flags, rs[LastSort(flags, rs)..])
    ensures multiset(last[reserved..]) == multiset(first[reserved..] + WantedBy(flags, rs))
  {
    hide Sorted, LastSort, WantedBy;
    var n := LastSort(flags, rs);
    WantedSplit(flags, rs, n);
    var f, a, b := first[reserved..], WantedBy(flags, rs[..n]), WantedBy(flags, rs[n..]);
    assert last[reserved..] == front + b;
    assert front + b + [] == front + b && a + b + [] == a + b;
    Regroup(f, a, b, front, [], front + b);
  }

  lemma FrontSorted(flags: Flags, reserved: nat, rs: seq<Request>, first: seq<Name>, last: seq<Name>, front: seq<Name>)
    requires AllValid(rs) && reserved <= |first| && FrontAndRest(flags, reserved, rs, first, last, front)
    ensures SortedIn(last, reserved) <==> StaysSorted(flags, rs, first[reserved..])
  {
    hide Sorted, LastSort, WantedBy, Below;
    FrontKeeps(flags, reserved, rs, first, last, front);
    var n := LastSort(flags, rs);
    var rest := WantedBy(flags, rs[n..]);
    SortedJoin(front, rest);
    BelowAlike(front, first[reserved..] + WantedBy(flags, rs[..n]), rest);
  }

  ghost predicate SortedIn(list: seq<Name>, reserved: nat) {
    reserved <= |list| && Sorted(list[reserved..])
  }

  ghost predicate StaysSorted(flags: Flags, rs: seq<Request>, start: seq<Name>)
    requires AllValid(rs)
  {
    var n := LastSort(flags, rs);
    && (n > 0 || Sorted(start))
    && Sorted(WantedBy(flags, rs[n..]))
    && Below(start + WantedBy(flags, rs[..n]), WantedBy(flags, rs[n..]))
  }

  lemma BelowAlike(s: seq<Name>, s': seq<Name>, t: seq<Name>)
    requires multiset(s) == multiset(s')
    ensures Below(s, t) <==> Below(s', t)
  {
    hide Le;
    assert forall x :: x in s <==> x in multiset(s);
    assert forall x :: x in s' <==> x in multiset(s');
  }

  lemma SortedPush(s: seq<Name>, x: Name)
    requires Sorted(s)
    ensures Sorted(s + [x]) <==> s == [] || Le(s[|s| - 1], x)
  {
    hide Le;
    var t := s + [x];
    if s != [] && Le(s[|s| - 1], x) {
      forall i, j | 0 <= i < j < |t|
        ensures Le(t[i], t[j])
      {
        if j == |s| && i < |s| - 1 {
          LeTransitive(s[i], s[|s| - 1], x);
        }
      }
    } else if s != [] {
      assert !Le(t[|s| - 1], t[|s|]);
    }
  }

  /* Adding "b" and then "a" leaves "b" before "a". */
  lemma FullSortFails(flags: Flags, w: World)
    requires ValidWorld(w) && flags.fullSort && !flags.noSort && w.stat == File && !flags.onlyDir
    ensures Added(flags, 0, [], [98], w, Success, [Name([98])])
    ensures Added(flags, 0, [Name([98])], [97], w, Success, [Name([98]), Name([97])])
    ensures !Sorted([Name([98]), Name([97])])
  {
    hide Added, Sorted;
    PlainName(flags, [], [98], w);
    PlainName(flags, [Name([98])], [97], w);
    assert [] + [Name([98])] == [Name([98])];
    assert [Name([98])] + [Name([97])] == [Name([98]), Name([97])];
    BeforeA();
  }

  lemma BeforeA()
    ensures !Sorted([Name([98]), Name([97])])
  {
    var s := [Name([98]), Name([97])];
    assert MapBytes(Lower, [98])[0] == 98 && MapBytes(Lower, [97])[0] == 97;
    assert !Le(s[0], s[1]);
  }

  lemma PlainName(flags: Flags, before: seq<Name>, spec: seq<Octet>, w: World)
    requires ValidWorld(w) && w.stat == File && !flags.onlyDir && !HasWildcard(spec)
    ensures Added(flags, 0, before, spec, w, Success, before + [Name(spec)])
  {
    var e := Entry(spec, false);
    assert Found(flags, spec, w) == [e];
    assert [e][..1] == [e] && [e][..0] == [];
    assert Wanted(flags, [e]) == [Name(spec)];
    assert AddedUpTo(flags, 0, before, spec, w, Success, before + [Name(spec)], 1);
  }
}
