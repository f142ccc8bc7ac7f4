/** The list of configuration sections of the CMP tool and the lookup through it
    (openssl-master/apps/cmp.c:2361-2408). */
module Cmp {
  import opened Wrappers
  import opened Sequences
  import opened CText

  const SECTION_NAME_MAX := 40

  /** A comma, or white space in the C locale. */
  predicate Sep(c: char) {
    c == ',' || c == ' ' || 9 as char <= c <= 13 as char
  }

  /** Comma, space, tab, line feed, vertical tab, form feed and carriage return. */
  lemma SepIs(c: char)
    ensures Sep(c) <==> c in {',', ' ', '\t', '\n', 11 as char, 12 as char, '\r'}
  {
  }

  predicate NoSep(s: string) {
    forall k :: 0 <= k < |s| ==> !Sep(s[k])
  }

  predicate AllSep(s: string) {
    forall k :: 0 <= k < |s| ==> Sep(s[k])
  }

  // ---- The names of a list --------------------------------------------------------------------

  /** The length of the separator-free run at the front. */
  function RunLength(s: string): (n: nat)
    ensures n <= |s| && NoSep(s[..n]) && (n < |s| ==> Sep(s[n]))
  {
    if s == [] || Sep(s[0]) then 0 else
      var n := RunLength(s[1..]);
      assert s[..n + 1] == [s[0]] + s[1..][..n];
      n + 1
  }

  /** The maximal separator-free runs of a text, from left to right. */
  function Names(s: string): seq<string>
    decreases |s|
  {
    if s == [] then []
    else if Sep(s[0]) then Names(s[1..])
    else [s[..RunLength(s)]] + Names(s[RunLength(s)..])
  }

  lemma RunLengthIs(s: string, n: nat)
    requires n <= |s| && NoSep(s[..n]) && (n < |s| ==> Sep(s[n]))
    ensures RunLength(s) == n
  {
    var m := RunLength(s);
    assert forall k :: 0 <= k < n ==> s[..n][k] == s[k];
    assert forall k :: 0 <= k < m ==> s[..m][k] == s[k];
  }

  /** Where at least one of two texts meets the other with a separator, no run crosses over. */
  lemma {:induction false} NamesPlus(a: string, b: string)
    requires a == [] || b == [] || Sep(a[|a| - 1]) || Sep(b[0])
    ensures Names(a + b) == Names(a) + Names(b)
    decreases |a|
  {
    if a == [] {
      assert a + b == b;
    } else if Sep(a[0]) {
      assert (a + b)[1..] == a[1..] + b;
      NamesPlus(a[1..], b);
    } else {
      var n := RunLength(a);
      assert (a + b)[..n] == a[..n];
      RunLengthIs(a + b, n);
      assert (a + b)[n..] == a[n..] + b;
      NamesPlus(a[n..], b);
      PlusAssoc([a[..n]], Names(a[n..]), Names(b));
    }
  }

  lemma {:induction false} NamesOfSeps(s: string)
    requires AllSep(s)
    ensures Names(s) == []
  {
    if s != [] { NamesOfSeps(s[1..]); }
  }

  lemma NamesOfRun(s: string)
    requires NoSep(s) && s != []
    ensures Names(s) == [s]
  {
    assert s[..|s|] == s;
    RunLengthIs(s, |s|);
  }

  lemma NamesGap(front: string, gap: string)
    requires AllSep(gap)
    ensures Names(front + gap) == Names(front)
  {
    NamesPlus(front, gap);
    NamesOfSeps(gap);
  }

  lemma NamesRun(front: string, gap: string, run: string)
    requires AllSep(gap) && NoSep(run) && run != [] && (gap == [] ==> front == [])
    ensures Names(front + (gap + run)) == Names(front) + [run]
  {
    NamesPlus(front, gap + run);
    NamesPlus(gap, run);
    NamesOfSeps(gap);
    NamesOfRun(run);
  }

  // ---- Scanning backwards ---------------------------------------------------------------------

  /** The start of the separator-free run that ends at `end`. */
  function Begin(s: string, end: nat): (b: nat)
    requires end <= |s|
    ensures b <= end && NoSep(s[b..end]) && (b > 0 ==> Sep(s[b - 1]))
  {
    if end == 0 || Sep(s[end - 1]) then end else
      var b := Begin(s, end - 1);
      assert s[b..end] == s[b..end - 1] + [s[end - 1]];
      b
  }

  /** The end of the run before `b`, across the separators. */
  function Skip(s: string, b: nat): (e: nat)
    requires b <= |s|
    ensures e <= b && AllSep(s[e..b]) && (e > 0 ==> !Sep(s[e - 1]))
  {
    if b == 0 || !Sep(s[b - 1]) then b else
      var e := Skip(s, b - 1);
      assert s[e..b] == s[e..b - 1] + [s[b - 1]];
      e
  }

  function Cut(name: string): string {
    if |name| > SECTION_NAME_MAX then name[..SECTION_NAME_MAX] else name
  }

  /** The static buffer opt_item, and the two functions that use it. */
  class Scanner {
    const optItem: array<char>

    ghost predicate Valid() {
      optItem.Length == SECTION_NAME_MAX + 1
    }

    constructor ()
      ensures Valid() && fresh(optItem)
    {
      optItem := new char[SECTION_NAME_MAX + 1];
    }

    /** Copies one item into the buffer. */
    method FillItem(opt: string, beg: nat, end: nat)
      requires Valid() && beg <= end <= |opt| && '\0' !in opt
      modifies optItem
      ensures Holds(optItem[..], 0, Cut(opt[beg..end]))
    {
      var len := if end - beg > SECTION_NAME_MAX then SECTION_NAME_MAX else end - beg;
      ghost var item := opt[beg..beg + len];
      CopyText(optItem, 0, opt[beg..beg + len]);
      assert item == Cut(opt[beg..end]);
      assert optItem[..][..len] == item[..len] == item;
    }

    /** prev_item: None at the start of the list, otherwise where to go on. */
    method PrevItem(opt: string, end: nat) returns (next: Option<nat>)
      requires Valid() && end <= |opt| && '\0' !in opt
      modifies optItem
      ensures next == if end == 0 then None else Some(Skip(opt, Begin(opt, end)))
      ensures end > 0 ==> Holds(optItem[..], 0, Cut(opt[Begin(opt, end)..end]))
    {
      if end == 0 { return None; }
      var beg := end;
      while beg > 0
        invariant 0 <= beg <= end && Begin(opt, end) == Begin(opt, beg)
      {
        beg := beg - 1;
        if Sep(opt[beg]) {
          beg := beg + 1;
          break;
        }
      }
      assert beg == Begin(opt, end);
      FillItem(opt, beg, end);
      ghost var start := beg;
      while beg > 0
        invariant 0 <= beg <= start && Skip(opt, start) == Skip(opt, beg)
        modifies {}
      {
        beg := beg - 1;
        if !Sep(opt[beg]) {
          beg := beg + 1;
          break;
        }
      }
      return Some(beg);
    }

    /** conf_get_string: the value of a name in the sections of a list; `lookup` is the name's value in
        a section. */
    method ConfGetString(lookup: string -> Option<string>, groups: string) returns (res: Option<string>)
      requires Valid() && '\0' !in groups
      modifies optItem
      ensures res == Value(lookup, groups)
    {
      var end := |groups|;
      assert groups[..end] == groups;
      while true
        invariant 0 <= end <= |groups|
        invariant Value(lookup, groups) == Value(lookup, groups[..end])
        decreases end
      {
        var next := PrevItem(groups, end);
        if next.None? { return None; }
        ghost var item := Cut(groups[Begin(groups, end)..end]);
        HoldsText(optItem[..], 0, item);
        ItemStep(lookup, groups, end);
        res := lookup(TextAt(optItem[..], 0));
        if res.Some? { return; }
        end := next.value;
      }
    }
  }

  // ---- What the lookup returns ----------------------------------------------------------------

  /** The value in the last of some sections that has one. */
  function LastDefined(lookup: string -> Option<string>, names: seq<string>): Option<string> {
    if names == [] then None
    else
      var v := lookup(Cut(names[|names| - 1]));
      if v.Some? then v else LastDefined(lookup, names[..|names| - 1])
  }

  /** The value from the last section listed that defines the name, each section name cut to 40
      characters; but a list that ends in a separator is first looked up in the section with the
      empty name. */
  function Value(lookup: string -> Option<string>, groups: string): Option<string> {
    if groups != [] && Sep(groups[|groups| - 1]) && lookup("").Some? then lookup("")
    else LastDefined(lookup, Names(groups))
  }

  /** One step back along the list: over the separators at its end, or over its last run. */
  lemma StepBack(s: string, end: nat)
    requires 0 < end <= |s|
    ensures var b := Begin(s, end);
            var e := Skip(s, b);
            && e < end && (e > 0 ==> !Sep(s[e - 1]))
            && (Sep(s[end - 1]) ==> b == end && Names(s[..end]) == Names(s[..e]))
            && (!Sep(s[end - 1]) ==> Names(s[..end]) == Names(s[..e]) + [s[b..end]])
  {
    var b := Begin(s, end);
    var e := Skip(s, b);
    if Sep(s[end - 1]) {
      assert s[..end] == s[..e] + s[e..end];
      NamesGap(s[..e], s[e..end]);
    } else {
      assert s[..end] == s[..e] + (s[e..b] + s[b..end]);
      NamesRun(s[..e], s[e..b], s[b..end]);
    }
  }

  lemma ItemStep(lookup: string -> Option<string>, s: string, end: nat)
    requires 0 < end <= |s|
    ensures var b := Begin(s, end);
            var item := Cut(s[b..end]);
            Skip(s, b) < end
            && Value(lookup, s[..end]) ==
                 if lookup(item).Some? then lookup(item) else Value(lookup, s[..Skip(s, b)])
  {
    StepBack(s, end);
    var b := Begin(s, end);
    var e := Skip(s, b);
    assert s[..end][end - 1] == s[end - 1];
    assert e > 0 ==> s[..e][e - 1] == s[e - 1];
    assert Value(lookup, s[..e]) == LastDefined(lookup, Names(s[..e]));
    if Sep(s[end - 1]) {
      assert s[b..end] == "";
    } else {
      LastDefinedPlus(lookup, Names(s[..e]), s[b..end]);
    }
  }

  lemma LastDefinedPlus(lookup: string -> Option<string>, names: seq<string>, name: string)
    ensures LastDefined(lookup, names + [name]) ==
              if lookup(Cut(name)).Some? then lookup(Cut(name)) else LastDefined(lookup, names)
  {
    assert (names + [name])[..|names|] == names;
  }

  // ---- The sequence of items ------------------------------------------------------------------

  /** The items that repeated calls of prev_item produce from `end` on. */
  function Items(s: string, end: nat): seq<string>
    requires end <= |s|
    decreases end
  {
    if end == 0 then []
    else
      var b := Begin(s, end);
      [Cut(s[b..end])] + Items(s, Skip(s, b))
  }

  /** The names from last to first, each cut. */
  function Backwards(names: seq<string>): seq<string> {
    if names == [] then [] else [Cut(names[|names| - 1])] + Backwards(names[..|names| - 1])
  }

  lemma BackwardsPlus(names: seq<string>, name: string)
    ensures Backwards(names + [name]) == [Cut(name)] + Backwards(names)
  {
    assert (names + [name])[..|names|] == names;
  }

  /** Repeated calls yield each maximal run once, last first, cut to 40 characters, with one empty
      item before them if the list ends in a separator. */
  lemma {:induction false} ItemsAre(s: string, end: nat)
    requires end <= |s|
    ensures Items(s, end) ==
              (if end > 0 && Sep(s[end - 1]) then [""] else []) + Backwards(Names(s[..end]))
    decreases end
  {
    if end > 0 {
      var b := Begin(s, end);
      var e := Skip(s, b);
      StepBack(s, end);
      ItemsAre(s, e);
      PlusNil(Backwards(Names(s[..e])));
      assert Items(s, e) == Backwards(Names(s[..e]));
      if Sep(s[end - 1]) {
        assert Cut(s[b..end]) == "";
      } else {
        BackwardsPlus(Names(s[..e]), s[b..end]);
        PlusNil(Backwards(Names(s[..end])));
      }
    }
  }

  // ---- Names and values, place by place -------------------------------------------------------

  /** `run` is a maximal run without separators, and stands at `at`. */
  predicate RunAt(s: string, at: nat, run: string) {
    && run != [] && at + |run| <= |s| && s[at..at + |run|] == run && NoSep(run)
    && (at > 0 ==> Sep(s[at - 1])) && (at + |run| < |s| ==> Sep(s[at + |run|]))
  }

  /** The runs `names` stand at the places `ats`, from left to right behind `from`, and no other
      character behind `from` but a separator. */
  predicate Placed(s: string, from: nat, names: seq<string>, ats: seq<nat>) {
    |ats| == |names| && AllRuns(s, names, ats) && LeftToRight(from, names, ats) && Covered(s, from, names, ats)
  }

  predicate AllRuns(s: string, names: seq<string>, ats: seq<nat>)
    requires |ats| == |names|
  {
    forall k :: 0 <= k < |names| ==> RunAt(s, ats[k], names[k])
  }

  predicate LeftToRight(from: nat, names: seq<string>, ats: seq<nat>)
    requires |ats| == |names|
  {
    && (forall k :: 0 <= k < |ats| ==> from <= ats[k])
    && (forall j, k :: 0 <= j < k < |ats| ==> ats[j] + |names[j]| < ats[k])
  }

  predicate Covered(s: string, from: nat, names: seq<string>, ats: seq<nat>)
    requires |ats| == |names|
  {
    forall p :: from <= p < |s| && !Sep(s[p]) ==> Inside(names, ats, p)
  }

  predicate Inside(names: seq<string>, ats: seq<nat>, p: int)
    requires |ats| == |names|
  {
    exists k :: 0 <= k < |ats| && ats[k] <= p < ats[k] + |names[k]|
  }

  lemma {:induction false} NamesFrom(s: string, from: nat) returns (ats: seq<nat>)
    requires from <= |s| && (0 < from < |s| ==> Sep(s[from - 1]) || Sep(s[from]))
    ensures Placed(s, from, Names(s[from..]), ats)
    decreases |s| - from
  {
    var t := s[from..];
    if t == [] {
      ats := [];
    } else if Sep(t[0]) {
      assert t[1..] == s[from + 1..];
      ats := NamesFrom(s, from + 1);
    } else {
      var n := RunLength(t);
      RunHere(s, from, n);
      assert t[n..] == s[from + n..];
      ats := NamesFrom(s, from + n);
      PlaceFirst(s, from, t[..n], Names(t[n..]), ats);
      ats := [from] + ats;
    }
  }

  lemma RunHere(s: string, from: nat, n: nat)
    requires from < |s| && !Sep(s[from]) && (from > 0 ==> Sep(s[from - 1])) && n == RunLength(s[from..])
    ensures 0 < n && from + n <= |s| && RunAt(s, from, s[from..][..n])
  {
    var t := s[from..];
    assert t[..n] == s[from..from + n];
    assert n < |t| ==> t[n] == s[from + n];
  }

  lemma InsideLater(run: string, names: seq<string>, at: nat, ats: seq<nat>, p: int)
    requires |ats| == |names| && Inside(names, ats, p)
    ensures Inside([run] + names, [at] + ats, p)
  {
    var k :| 0 <= k < |ats| && ats[k] <= p < ats[k] + |names[k]|;
    assert ([at] + ats)[k + 1] <= p < ([at] + ats)[k + 1] + |([run] + names)[k + 1]|;
  }

  /** A run behind another one is apart from it. */
  lemma Apart(s: string, end: nat, at: nat, run: string)
    requires end <= at && RunAt(s, at, run) && (end < |s| ==> Sep(s[end]))
    ensures end < at
  {
    assert s[at] == s[at..at + |run|][0] == run[0];
  }

  lemma FirstApart(s: string, end: nat, run: string, from: nat, names: seq<string>, rest: seq<nat>)
    requires |rest| == |names| && AllRuns(s, names, rest) && LeftToRight(end, names, rest)
    requires (end < |s| ==> Sep(s[end])) && end == from + |run|
    ensures LeftToRight(from, [run] + names, [from] + rest)
  {
    forall k | 0 <= k < |rest| ensures end < rest[k] { Apart(s, end, rest[k], names[k]); }
  }

  lemma FirstRuns(s: string, run: string, from: nat, names: seq<string>, rest: seq<nat>)
    requires |rest| == |names| && AllRuns(s, names, rest) && RunAt(s, from, run)
    ensures AllRuns(s, [run] + names, [from] + rest)
  {
    forall k | 0 <= k < |names| + 1 ensures RunAt(s, ([from] + rest)[k], ([run] + names)[k]) {
      if k > 0 { assert RunAt(s, rest[k - 1], names[k - 1]); }
    }
  }

  lemma CoverFirst(s: string, from: nat, run: string, names: seq<string>, rest: seq<nat>)
    requires |rest| == |names| && Covered(s, from + |run|, names, rest)
    ensures Covered(s, from, [run] + names, [from] + rest)
  {
    forall p | from <= p < |s| && !Sep(s[p]) ensures Inside([run] + names, [from] + rest, p) {
      if p < from + |run| {
        assert ([from] + rest)[0] <= p < ([from] + rest)[0] + |([run] + names)[0]|;
      } else {
        InsideLater(run, names, from, rest, p);
      }
    }
  }

  lemma PlaceFirst(s: string, from: nat, run: string, names: seq<string>, rest: seq<nat>)
    requires RunAt(s, from, run) && Placed(s, from + |run|, names, rest)
    ensures Placed(s, from, [run] + names, [from] + rest)
  {
    FirstRuns(s, run, from, names, rest);
    FirstApart(s, from + |run|, run, from, names, rest);
    CoverFirst(s, from, run, names, rest);
  }

  /** The names of a list are its maximal runs without separators, each once, from left to right. */
  lemma NamesAre(s: string) returns (ats: seq<nat>)
    ensures Placed(s, 0, Names(s), ats)
  {
    assert s[0..] == s;
    ats := NamesFrom(s, 0);
  }

  function First40(name: string): (r: string)
    ensures r <= name && |r| == if |name| < 40 then |name| else 40
  {
    name[..if |name| < 40 then |name| else 40]
  }

  /** The section defines the name looked up, under the first 40 characters of its own. */
  predicate Defines(lookup: string -> Option<string>, section: string) {
    lookup(First40(section)).Some?
  }

  /** Section `k` is the last one that defines it. */
  predicate Decides(lookup: string -> Option<string>, sections: seq<string>, k: nat) {
    k < |sections| && Defines(lookup, sections[k]) && forall j :: k < j < |sections| ==> !Defines(lookup, sections[j])
  }

  lemma {:induction false} LastExact(lookup: string -> Option<string>, names: seq<string>) returns (k: nat)
    ensures if LastDefined(lookup, names).Some? then
              Decides(lookup, names, k) && LastDefined(lookup, names) == lookup(First40(names[k]))
            else forall j :: 0 <= j < |names| ==> !Defines(lookup, names[j])
  {
    k := 0;
    if names != [] {
      var n := |names| - 1;
      assert Cut(names[n]) == First40(names[n]);
      k := LastExact(lookup, names[..n]);
      if lookup(First40(names[n])).Some? { k := n; }
    }
  }

  /** The section with the empty name comes first for a list that ends in a separator; otherwise the
      last section that defines the name decides. */
  lemma ValueExact(lookup: string -> Option<string>, groups: string) returns (k: nat)
    ensures var names := Names(groups);
            if groups != [] && Sep(groups[|groups| - 1]) && lookup("").Some? then Value(lookup, groups) == lookup("")
            else if Value(lookup, groups).Some? then
              Decides(lookup, names, k) && Value(lookup, groups) == lookup(First40(names[k]))
            else forall j :: 0 <= j < |names| ==> !Defines(lookup, names[j])
  {
    k := LastExact(lookup, Names(groups));
  }
}
