/**
The quarter wave of libteletone_generate.c.
*/
module Sines {
  import opened CInt
  import opened Dds

  function Row(a: int, b: int, c: int, d: int, e: int, f: int, g: int, h: int): (s: seq<int>)
    ensures |s| == 8 && s[0] == a && s[1] == b && s[2] == c && s[3] == d
    ensures s[4] == e && s[5] == f && s[6] == g && s[7] == h
  {
    [a, b, c, d, e, f, g, h]
  }

  const TELETONE_SINES: seq<int> :=
    Row(201, 603, 1005, 1407, 1809, 2210, 2611, 3012) +
    Row(3412, 3812, 4211, 4609, 5007, 5404, 5800, 6195) +
    Row(6590, 6983, 7376, 7767, 8157, 8546, 8933, 9319) +
    Row(9704, 10088, 10469, 10850, 11228, 11605, 11980, 12354) +
    Row(12725, 13095, 13463, 13828, 14192, 14553, 14912, 15269) +
    Row(15624, 15976, 16326, 16673, 17018, 17361, 17700, 18037) +
    Row(18372, 18703, 19032, 19358, 19681, 20001, 20318, 20632) +
    Row(20943, 21251, 21555, 21856, 22154, 22449, 22740, 23028) +
    Row(23312, 23593, 23870, 24144, 24414, 24680, 24943, 25202) +
    Row(25457, 25708, 25956, 26199, 26439, 26674, 26906, 27133) +
    Row(27357, 27576, 27791, 28002, 28209, 28411, 28610, 28803) +
    Row(28993, 29178, 29359, 29535, 29707, 29875, 30038, 30196) +
    Row(30350, 30499, 30644, 30784, 30920, 31050, 31177, 31298) +
    Row(31415, 31527, 31634, 31737, 31834, 31927, 32015, 32099) +
    Row(32177, 32251, 32319, 32383, 32442, 32496, 32546, 32590) +
    Row(32629, 32664, 32693, 32718, 32738, 32753, 32762, 32767)

  ghost predicate Rises(s: seq<int>) {
    forall i, j :: 0 <= i < j < |s| ==> s[i] < s[j]
  }

  lemma RowRises(s: seq<int>, a: int, b: int, c: int, d: int, e: int, f: int, g: int, h: int)
    requires Rises(s) && (s != [] ==> s[|s| - 1] < a) && a < b < c < d < e < f < g < h
    ensures Rises(s + Row(a, b, c, d, e, f, g, h))
  {
    hide Row;
    var t := Row(a, b, c, d, e, f, g, h);
    assert Rises(t);
    assert forall i :: 0 <= i < |s| ==> s[i] <= s[|s| - 1];
    assert forall j :: 0 <= j < 8 ==> t[j] >= a;
  }

  lemma Extend(s: seq<int>, a: int, b: int, c: int, d: int, e: int, f: int, g: int, h: int) returns (t: seq<int>)
    requires Rises(s) && (s != [] ==> s[|s| - 1] < a && s[0] > 0) && 0 < a < b < c < d < e < f < g < h
    ensures t == s + Row(a, b, c, d, e, f, g, h) && |t| == |s| + 8 && Rises(t) && t[|t| - 1] == h
    ensures t[0] == (if s == [] then a else s[0]) > 0
  {
    hide Row;
    RowRises(s, a, b, c, d, e, f, g, h);
    t := s + Row(a, b, c, d, e, f, g, h);
  }

  /* It has the entries that the oscillator needs, and it rises. */
  lemma TableRises()
    ensures SineTable(TELETONE_SINES) && Rises(TELETONE_SINES)
    ensures TELETONE_SINES[0] == 201 && TELETONE_SINES[127] == 32767
  {
    hide Row, Rises;
    var s: seq<int> := [];
    NothingRises();
    s := Extend(s, 201, 603, 1005, 1407, 1809, 2210, 2611, 3012);
    s := Extend(s, 3412, 3812, 4211, 4609, 5007, 5404, 5800, 6195);
    s := Extend(s, 6590, 6983, 7376, 7767, 8157, 8546, 8933, 9319);
    s := Extend(s, 9704, 10088, 10469, 10850, 11228, 11605, 11980, 12354);
    s := Extend(s, 12725, 13095, 13463, 13828, 14192, 14553, 14912, 15269);
    s := Extend(s, 15624, 15976, 16326, 16673, 17018, 17361, 17700, 18037);
    s := Extend(s, 18372, 18703, 19032, 19358, 19681, 20001, 20318, 20632);
    s := Extend(s, 20943, 21251, 21555, 21856, 22154, 22449, 22740, 23028);
    s := Extend(s, 23312, 23593, 23870, 24144, 24414, 24680, 24943, 25202);
    s := Extend(s, 25457, 25708, 25956, 26199, 26439, 26674, 26906, 27133);
    s := Extend(s, 27357, 27576, 27791, 28002, 28209, 28411, 28610, 28803);
    s := Extend(s, 28993, 29178, 29359, 29535, 29707, 29875, 30038, 30196);
    s := Extend(s, 30350, 30499, 30644, 30784, 30920, 31050, 31177, 31298);
    s := Extend(s, 31415, 31527, 31634, 31737, 31834, 31927, 32015, 32099);
    s := Extend(s, 32177, 32251, 32319, 32383, 32442, 32496, 32546, 32590);
    s := Extend(s, 32629, 32664, 32693, 32718, 32738, 32753, 32762, 32767);
    assert [] + Row(201, 603, 1005, 1407, 1809, 2210, 2611, 3012) == Row(201, 603, 1005, 1407, 1809, 2210, 2611, 3012);
    assert s == TELETONE_SINES;
    Ends(s);
  }

  lemma NothingRises()
    ensures Rises([])
  {
  }

  lemma Ends(s: seq<int>)
    requires |s| == 128 && Rises(s) && s[0] == 201 && s[127] == 32767
    ensures SineTable(s)
  {
    assert forall i :: 0 <= i < 128 ==> s[0] <= s[i] <= s[127];
  }

  /* The tone starts at 201, and its first quarter turn goes up to 32767. */
  lemma ToneStarts()
    ensures SineTable(TELETONE_SINES)
    ensures Sample(TELETONE_SINES, 0x8000, 0) == 201 && Sample(TELETONE_SINES, 0x8000, 0x3FFF_FFFF) == 32767
  {
    hide Row;
    TableRises();
    WaveUnfolds(TELETONE_SINES, 0);
    WaveUnfolds(TELETONE_SINES, 0x3FFF_FFFF);
    FullScale(201);
    FullScale(32767);
  }
}
