/** `TryFrom<String> for PortRangeList` of src/common/port_range.rs: the parsed
    ranges are sorted by lower end and touching or overlapping ones are merged. */
module PortList {
  import opened Words
  import opened PortSegments

  const PORT_MAX: u16 := 0xFFFF

  ghost predicate Denotes(list: seq<PortRange>, p: nat) {
    exists r :: r in list && r.Contains(p)
  }

  predicate Inverted(r: PortRange) { r.min > r.max }

  // ---------- the stable sort ----------

  ghost predicate Sorted(list: seq<PortRange>) {
    forall i, j :: 0 <= i < j < |list| ==> list[i].min <= list[j].min
  }

  /** Insertion behind every range with the same lower end. */
  function Insert(r: PortRange, sorted: seq<PortRange>): (s: seq<PortRange>)
    requires Sorted(sorted)
    ensures Sorted(s) && multiset(s) == multiset(sorted) + multiset{r}
  {
    if sorted == [] then [r]
    else
      var last := sorted[|sorted| - 1];
      assert sorted == sorted[..|sorted| - 1] + [last];
      if last.min <= r.min then sorted + [r]
      else
        var s := Insert(r, sorted[..|sorted| - 1]);
        AppendSorted(s, sorted[..|sorted| - 1], r, last);
        s + [last]
  }

  lemma AppendSorted(s: seq<PortRange>, t: seq<PortRange>, r: PortRange, last: PortRange)
    requires Sorted(s) && multiset(s) == multiset(t) + multiset{r}
    requires Sorted(t + [last]) && r.min <= last.min
    ensures Sorted(s + [last])
  {
    forall i | 0 <= i < |s| ensures s[i].min <= last.min {
      assert s[i] in multiset(s);
      if s[i] != r {
        assert s[i] in multiset(t);
        var j :| 0 <= j < |t| && t[j] == s[i];
        assert (t + [last])[j] == t[j] && (t + [last])[|t|] == last;
      }
    }
  }

  function SortByMin(list: seq<PortRange>): (s: seq<PortRange>)
    ensures Sorted(s) && multiset(s) == multiset(list)
  {
    if list == [] then []
    else
      assert list == list[..|list| - 1] + [list[|list| - 1]];
      Insert(list[|list| - 1], SortByMin(list[..|list| - 1]))
  }

  /** The ranges with the lower end `m`, in order. */
  function WithMin(list: seq<PortRange>, m: nat): seq<PortRange> {
    if list == [] then []
    else
      var n := |list| - 1;
      WithMin(list[..n], m) + (if list[n].min == m then [list[n]] else [])
  }

  lemma WithMinSnoc(list: seq<PortRange>, r: PortRange, m: nat)
    ensures WithMin(list + [r], m) == WithMin(list, m) + (if r.min == m then [r] else [])
  {
    assert (list + [r])[..|list|] == list;
  }

  lemma SortedFront(sorted: seq<PortRange>)
    requires Sorted(sorted) && sorted != []
    ensures Sorted(sorted[..|sorted| - 1])
  {
  }

  lemma {:induction false} InsertStable(r: PortRange, sorted: seq<PortRange>, m: nat)
    requires Sorted(sorted)
    ensures WithMin(Insert(r, sorted), m) == WithMin(sorted, m) + (if r.min == m then [r] else [])
  {
    hide WithMin, Sorted;
    if sorted == [] || sorted[|sorted| - 1].min <= r.min {
      WithMinSnoc(sorted, r, m);
      assert Insert(r, sorted) == sorted + [r];
    } else {
      var front, last := sorted[..|sorted| - 1], sorted[|sorted| - 1];
      SortedFront(sorted);
      InsertStable(r, front, m);
      WithMinSnoc(Insert(r, front), last, m);
      assert sorted == front + [last];
      WithMinSnoc(front, last, m);
    }
  }

  /** Ranges with the same lower end keep their order. */
  lemma {:induction false} SortStable(list: seq<PortRange>, m: nat)
    ensures WithMin(SortByMin(list), m) == WithMin(list, m)
  {
    if list != [] {
      var n := |list| - 1;
      SortStable(list[..n], m);
      InsertStable(list[n], SortByMin(list[..n]), m);
    }
  }

  // ---------- the specification of the merge ----------

  function Join(a: PortRange, b: PortRange): PortRange {
    PortRange(a.min, if b.max > a.max then b.max else a.max)
  }

  /** Merging `rest` into the running range `cur`. `None` is the overflow of
      `max() + 1` on a u16. */
  function MergeFrom(cur: PortRange, rest: seq<PortRange>): Option<seq<PortRange>>
    decreases rest
  {
    if rest == [] then Some([cur])
    else if cur.max == PORT_MAX then None
    else if cur.max + 1 >= rest[0].min then MergeFrom(Join(cur, rest[0]), rest[1..])
    else Prepend([cur], MergeFrom(rest[0], rest[1..]))
  }

  function Prepend(front: seq<PortRange>, tail: Option<seq<PortRange>>): Option<seq<PortRange>> {
    match tail
    case None => None
    case Some(t) => Some(front + t)
  }

  function Merge(sorted: seq<PortRange>): Option<seq<PortRange>> {
    if sorted == [] then Some([]) else MergeFrom(sorted[0], sorted[1..])
  }

  // ---------- the source's loops ----------

  /** The elements whose flag is not set. */
  function Kept(list: seq<PortRange>, deleted: seq<bool>): (kept: seq<PortRange>)
    requires |list| == |deleted|
  {
    if list == [] then []
    else
      var n := |list| - 1;
      Kept(list[..n], deleted[..n]) + (if deleted[n] then [] else [list[n]])
  }

  lemma PrependEmpty(tail: Option<seq<PortRange>>)
    ensures Prepend([], tail) == tail
  {
    if tail.Some? { assert [] + tail.value == tail.value; }
  }

  lemma PrependSnoc(front: seq<PortRange>, r: PortRange, tail: Option<seq<PortRange>>)
    ensures Prepend(front, Prepend([r], tail)) == Prepend(front + [r], tail)
  {
    if tail.Some? { assert front + ([r] + tail.value) == front + [r] + tail.value; }
  }

  /** After `i` rounds: the kept ranges followed by the merge of what is left
      are the merge of the sorted list. */
  ghost predicate Progress(list: seq<PortRange>, deleted: seq<bool>, sorted: seq<PortRange>, i: nat) {
    && |list| == |deleted| == |sorted|
    && i < |list|
    && (forall j :: i < j < |list| ==> list[j] == sorted[j])
    && (forall j :: i <= j < |list| ==> !deleted[j])
    && Prepend(Kept(list[..i], deleted[..i]), MergeFrom(list[i], sorted[i + 1..])) == Merge(sorted)
  }

  lemma ProgressInit(sorted: seq<PortRange>, deleted: seq<bool>)
    requires sorted != [] && |deleted| == |sorted| && forall j :: 0 <= j < |deleted| ==> !deleted[j]
    ensures Progress(sorted, deleted, sorted, 0)
  {
    PrependEmpty(Merge(sorted));
  }

  lemma ProgressStep(list: seq<PortRange>, deleted: seq<bool>, sorted: seq<PortRange>, i: nat)
    requires Progress(list, deleted, sorted, i) && i + 1 < |list|
    ensures list[i].max == PORT_MAX ==> Merge(sorted).None?
    ensures list[i].max != PORT_MAX && list[i].max + 1 < list[i + 1].min ==> Progress(list, deleted, sorted, i + 1)
    ensures list[i].max != PORT_MAX && list[i].max + 1 >= list[i + 1].min ==>
              Progress(list[i + 1 := Join(list[i], list[i + 1])], deleted[i := true], sorted, i + 1)
  {
    var rest := sorted[i + 1..];
    assert rest[0] == list[i + 1] && rest[1..] == sorted[i + 2..];
    if list[i].max != PORT_MAX {
      var kept := Kept(list[..i], deleted[..i]);
      if list[i].max + 1 >= list[i + 1].min {
        KeptStep(list, deleted, list[i + 1 := Join(list[i], list[i + 1])], deleted[i := true], i);
        assert kept + [] == kept;
      } else {
        KeptStep(list, deleted, list, deleted, i);
        PrependSnoc(kept, list[i], MergeFrom(list[i + 1], sorted[i + 2..]));
      }
    }
  }

  lemma ProgressDone(list: seq<PortRange>, deleted: seq<bool>, sorted: seq<PortRange>)
    requires list != [] && Progress(list, deleted, sorted, |list| - 1)
    ensures Some(Kept(list, deleted)) == Merge(sorted)
  {
  }

  method Normalize(input: seq<PortRange>) returns (result: Option<seq<PortRange>>)
    ensures result == Normalized(input)
  {
    ghost var sorted := SortByMin(input);
    var list := SortByMin(input);
    var deleteFlags := seq(|list|, _ => false);
    var hasDelete := false;
    if list != [] { ProgressInit(sorted, deleteFlags); }
    hide SortByMin, Progress, Merge, Kept;
    for i := 0 to |list|
      invariant |list| == |sorted| == |deleteFlags|
      invariant i < |list| ==> Progress(list, deleteFlags, sorted, i)
      invariant i == |list| > 0 ==> Progress(list, deleteFlags, sorted, i - 1)
      invariant !hasDelete ==> forall j :: 0 <= j < |list| ==> !deleteFlags[j]
    {
      if i == |list| - 1 {
        continue;
      }
      ProgressStep(list, deleteFlags, sorted, i);
      if list[i].max == PORT_MAX { return None; }  // max() + 1 overflows
      if list[i].max + 1 >= list[i + 1].min {
        list := list[i + 1 := Join(list[i], list[i + 1])];
        deleteFlags := deleteFlags[i := true];
        hasDelete := true;
      }
    }
    MergeEmpty();
    if list != [] { ProgressDone(list, deleteFlags, sorted); }
    if !hasDelete {
      KeptAll(list, deleteFlags);
      return Some(list);
    }
    var newList := Compact(list, deleteFlags);
    return Some(newList);
  }

  lemma MergeEmpty()
    ensures Merge([]) == Some([]) && Kept([], []) == []
  {
  }

  method Compact(list: seq<PortRange>, deleteFlags: seq<bool>) returns (newList: seq<PortRange>)
    requires |list| == |deleteFlags|
    ensures newList == Kept(list, deleteFlags)
  {
    newList := [];
    for i := 0 to |list|
      invariant newList == Kept(list[..i], deleteFlags[..i])
    {
      KeptStep(list, deleteFlags, list, deleteFlags, i);
      if deleteFlags[i] { continue; }
      newList := newList + [list[i]];
    }
    assert list[..|list|] == list && deleteFlags[..|list|] == deleteFlags;
  }

  lemma KeptStep(before: seq<PortRange>, flags: seq<bool>, list: seq<PortRange>, deleted: seq<bool>, i: nat)
    requires |before| == |flags| == |list| == |deleted| && i < |list|
    requires list[..i + 1] == before[..i + 1] && deleted[..i] == flags[..i]
    ensures Kept(list[..i + 1], deleted[..i + 1]) ==
            Kept(before[..i], flags[..i]) + (if deleted[i] then [] else [before[i]])
  {
    assert list[..i + 1][..i] == before[..i] && deleted[..i + 1][..i] == flags[..i];
    assert list[..i + 1][i] == before[..i + 1][i];
  }

  lemma {:induction false} KeptAll(list: seq<PortRange>, deleted: seq<bool>)
    requires |list| == |deleted| && forall j :: 0 <= j < |list| ==> !deleted[j]
    ensures Kept(list, deleted) == list
  {
    if list != [] { KeptAll(list[..|list| - 1], deleted[..|list| - 1]); }
  }

  // ---------- what the merge means ----------

  ghost predicate Gapped(list: seq<PortRange>) {
    forall j :: 0 <= j < |list| - 1 ==> list[j].max + 1 < list[j + 1].min
  }

  lemma DenotesCons(r: PortRange, list: seq<PortRange>, p: nat)
    ensures Denotes([r] + list, p) <==> r.Contains(p) || Denotes(list, p)
  {
    if r.Contains(p) { assert r in [r] + list; }
    if Denotes(list, p) {
      var s :| s in list && s.Contains(p);
      assert s in [r] + list;
    }
  }

  /** Same ports, whatever the input, inverted ranges included. */
  lemma {:induction false} MergePreserves(cur: PortRange, rest: seq<PortRange>, p: nat)
    requires Sorted([cur] + rest) && MergeFrom(cur, rest).Some?
    ensures Denotes(MergeFrom(cur, rest).value, p) <==> Denotes([cur] + rest, p)
    decreases rest
  {
    if rest != [] {
      var next, tail := rest[0], rest[1..];
      assert rest == [next] + tail;
      SortedTail(cur, rest);
      DenotesCons(cur, rest, p);
      DenotesCons(next, tail, p);
      if cur.max + 1 >= next.min {
        SortedJoin(cur, rest);
        MergePreserves(Join(cur, next), tail, p);
        DenotesCons(Join(cur, next), tail, p);
      } else {
        MergePreserves(next, tail, p);
        DenotesCons(cur, MergeFrom(next, tail).value, p);
      }
    }
  }

  lemma SortedTail(cur: PortRange, rest: seq<PortRange>)
    requires Sorted([cur] + rest)
    ensures Sorted(rest) && forall r :: r in rest ==> cur.min <= r.min
  {
    var all := [cur] + rest;
    assert forall i :: 0 <= i < |rest| ==> rest[i] == all[i + 1];
    assert all[0] == cur;
  }

  lemma SortedJoin(cur: PortRange, rest: seq<PortRange>)
    requires Sorted([cur] + rest) && rest != []
    ensures Sorted([Join(cur, rest[0])] + rest[1..])
  {
    var all := [cur] + rest;
    var joined := [Join(cur, rest[0])] + rest[1..];
    assert forall i :: 0 < i < |joined| ==> joined[i] == all[i + 1];
    assert all[0] == cur;
  }

  /** Normal form: neighbours are separated by at least one missing port. */
  lemma {:induction false} MergeGapped(cur: PortRange, rest: seq<PortRange>)
    requires Sorted([cur] + rest) && MergeFrom(cur, rest).Some?
    ensures var out := MergeFrom(cur, rest).value;
            out != [] && out[0].min == cur.min && Gapped(out)
    ensures (forall r :: r in [cur] + rest ==> !Inverted(r)) ==>
              forall r :: r in MergeFrom(cur, rest).value ==> !Inverted(r)
    decreases rest
  {
    if rest != [] {
      var next, tail := rest[0], rest[1..];
      assert rest == [next] + tail;
      SortedTail(cur, rest);
      assert forall r :: r in [next] + tail ==> r in [cur] + rest;
      assert cur in [cur] + rest;
      if cur.max + 1 >= next.min {
        SortedJoin(cur, rest);
        MergeGapped(Join(cur, next), tail);
      } else {
        MergeGapped(next, tail);
      }
    }
  }

  /** Some range before the last one ends at the largest port. */
  ghost predicate EndsEarly(list: seq<PortRange>) {
    exists j :: 0 <= j < |list| - 1 && list[j].max == PORT_MAX
  }

  /** The addition overflows exactly when a range other than the last in sort order ends at 65535. */
  lemma {:induction false} MergeOverflow(cur: PortRange, rest: seq<PortRange>)
    ensures MergeFrom(cur, rest).None? <==> EndsEarly([cur] + rest)
    decreases rest
  {
    if rest != [] {
      var next, tail := rest[0], rest[1..];
      var all := [cur] + rest;
      assert all[0] == cur;
      if cur.max != PORT_MAX {
        var c := if cur.max + 1 >= next.min then Join(cur, next) else next;
        var all' := [c] + tail;
        MergeOverflow(c, tail);
        assert all'[0] == c && all[1] == next;
        assert forall j :: 0 < j < |tail| ==> all'[j] == all[j + 1];
        if EndsEarly(all) {
          var j :| 0 <= j < |all| - 1 && all[j].max == PORT_MAX;
          assert all'[j - 1].max == PORT_MAX;
        }
        if EndsEarly(all') {
          var j :| 0 <= j < |all'| - 1 && all'[j].max == PORT_MAX;
          assert all[j + 1].max == PORT_MAX;
        }
      }
    }
  }

  // ---------- the normal form is canonical ----------

  ghost predicate Normal(list: seq<PortRange>) {
    Gapped(list) && forall r :: r in list ==> !Inverted(r)
  }

  lemma {:induction false} NormalAscends(list: seq<PortRange>, p: nat)
    requires Normal(list) && list != [] && Denotes(list[1..], p)
    ensures list[0].max + 1 < p
  {
    var tail := list[1..];
    assert list[1] == tail[0] && list[1] in list && list[0] in list;
    NormalTail(list);
    if tail[0].Contains(p) {
    } else {
      assert tail == [tail[0]] + tail[1..];
      DenotesCons(tail[0], tail[1..], p);
      NormalAscends(tail, p);
    }
  }

  lemma NormalTail(list: seq<PortRange>)
    requires Normal(list) && list != []
    ensures Normal(list[1..])
  {
    var tail := list[1..];
    assert forall j :: 0 <= j < |tail| ==> tail[j] == list[j + 1];
  }

  ghost predicate SamePorts(a: seq<PortRange>, b: seq<PortRange>) {
    forall p: nat :: Denotes(a, p) <==> Denotes(b, p)
  }

  lemma HeadMin(a: seq<PortRange>, b: seq<PortRange>)
    requires Normal(a) && Normal(b) && a != [] && SamePorts(a, b)
    ensures b != [] && b[0].min <= a[0].min
  {
    assert a[0] in a;
    assert Denotes(a, a[0].min);
    Reaches(b, a[0].min);
  }

  lemma HeadMax(a: seq<PortRange>, b: seq<PortRange>)
    requires Normal(a) && Normal(b) && a != [] && b != [] && SamePorts(a, b) && a[0].min == b[0].min
    ensures a[0].max <= b[0].max
  {
    var gap: nat := b[0].max + 1;
    assert a[0] in a && b[0] in b;
    if b[0].max < a[0].max {
      assert a[0].Contains(gap);
      assert Denotes(a, gap);
      assert b == [b[0]] + b[1..];
      DenotesCons(b[0], b[1..], gap);
      NormalAscends(b, gap);
    }
  }

  /** Canonical: lists in normal form that denote the same ports are the same list. */
  lemma {:induction false} NormalUnique(a: seq<PortRange>, b: seq<PortRange>)
    requires Normal(a) && Normal(b) && SamePorts(a, b)
    ensures a == b
  {
    if a == [] && b == [] {
    } else if a == [] {
      HeadMin(b, a);
    } else {
      HeadMin(a, b);
      HeadMin(b, a);
      HeadMax(a, b);
      HeadMax(b, a);
      var r := a[0];
      assert a == [r] + a[1..] && b == [r] + b[1..];
      forall p: nat ensures Denotes(a[1..], p) <==> Denotes(b[1..], p) {
        DenotesCons(r, a[1..], p);
        DenotesCons(r, b[1..], p);
        if Denotes(a[1..], p) { NormalAscends(a, p); }
        if Denotes(b[1..], p) { NormalAscends(b, p); }
      }
      NormalTail(a);
      NormalTail(b);
      NormalUnique(a[1..], b[1..]);
    }
  }

  lemma Reaches(b: seq<PortRange>, p: nat)
    requires Normal(b) && Denotes(b, p)
    ensures b != [] && b[0].min <= p
  {
    assert b == [b[0]] + b[1..] && b[0] in b;
    DenotesCons(b[0], b[1..], p);
    if !b[0].Contains(p) { NormalAscends(b, p); }
  }

  // ---------- the theorems about the parsed list ----------

  function Normalized(input: seq<PortRange>): Option<seq<PortRange>> {
    Merge(SortByMin(input))
  }

  ghost predicate NoneInverted(list: seq<PortRange>) {
    forall r :: r in list ==> !Inverted(r)
  }

  lemma SameMembers(a: seq<PortRange>, b: seq<PortRange>)
    requires multiset(a) == multiset(b)
    ensures forall r :: r in a <==> r in b
  {
    assert forall r :: r in a <==> r in multiset(a);
    assert forall r :: r in b <==> r in multiset(b);
  }

  /** Every list that does not overflow is replaced by one with the same ports,
      neighbours separated by a gap; without inverted ranges it is in normal form. */
  lemma NormalizedMeaning(input: seq<PortRange>, p: nat)
    requires Normalized(input).Some?
    ensures Denotes(Normalized(input).value, p) <==> Denotes(input, p)
    ensures Gapped(Normalized(input).value)
    ensures NoneInverted(input) ==> Normal(Normalized(input).value)
  {
    var s := SortByMin(input);
    SameMembers(s, input);
    if s != [] {
      assert s == [s[0]] + s[1..];
      MergePreserves(s[0], s[1..], p);
      MergeGapped(s[0], s[1..]);
    }
  }

  lemma NormalizedOverflow(input: seq<PortRange>)
    ensures Normalized(input).None? <==> EndsEarly(SortByMin(input))
  {
    hide SortByMin, MergeFrom;
    var s := SortByMin(input);
    if s != [] {
      assert s == [s[0]] + s[1..];
      MergeOverflow(s[0], s[1..]);
    }
  }

  /** Two range lists for the same ports are normalised to the same list. */
  lemma NormalizedCanonical(a: seq<PortRange>, b: seq<PortRange>)
    requires NoneInverted(a) && NoneInverted(b) && SamePorts(a, b)
    requires Normalized(a).Some? && Normalized(b).Some?
    ensures Normalized(a) == Normalized(b)
  {
    var x, y := Normalized(a).value, Normalized(b).value;
    forall p: nat ensures Denotes(x, p) <==> Denotes(y, p) {
      NormalizedMeaning(a, p);
      NormalizedMeaning(b, p);
    }
    NormalizedMeaning(a, 0);
    NormalizedMeaning(b, 0);
    NormalUnique(x, y);
  }

  /** Any range after one that ends at the last port is enough. */
  lemma OverflowExample()
    ensures Normalized([PortRange(1, 0xFFFF), PortRange(2, 3)]).None?
  {
    var input := [PortRange(1, 0xFFFF), PortRange(2, 3)];
    var sorted := SortByMin(input);
    NormalizedOverflow(input);
    assert |multiset(sorted)| == |sorted| && |multiset(input)| == 2;
    assert input[0] in multiset(sorted);
    var j :| 0 <= j < |sorted| && sorted[j] == input[0];
  }
}
