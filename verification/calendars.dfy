/**
  The calendar list shown to the user: one record per calendar entry, with
  optional flags defaulting to false, sorted so that the primary calendar
  comes first, then selected calendars, then the rest, each group ordered
  by summary.
 */
module Calendars {
  import opened Lexicographic

  datatype Option<+T> = None | Some(value: T)

  /** A calendar entry as the calendar service lists it; optional fields may be absent. */
  datatype CalendarEntry = CalendarEntry(
    kind: string,
    id: string,
    description: Option<string>,
    summary: string,
    selected: Option<bool>,
    primary: Option<bool>)

  /** The record kept for one calendar. */
  datatype Calendar = Calendar(kind: string, id: string, summary: string, selected: bool, primary: bool)

  /** An optional flag reads as true only when it is present and true. */
  function FlagOrFalse(f: Option<bool>): (b: bool)
    ensures b <==> f == Some(true)
  {
    f.Some? && f.value
  }

  /**
    The record for one entry: kind, id and summary copied, both flags false
    unless present and true. The description is looked up with a default
    but not kept in the record.
   */
  function BuildRecord(entry: CalendarEntry): (c: Calendar)
    ensures c.kind == entry.kind && c.id == entry.id && c.summary == entry.summary
    ensures c.selected <==> entry.selected == Some(true)
    ensures c.primary <==> entry.primary == Some(true)
    ensures entry.selected.None? ==> !c.selected
    ensures entry.primary.None? ==> !c.primary
  {
    Calendar(entry.kind, entry.id, entry.summary, FlagOrFalse(entry.selected), FlagOrFalse(entry.primary))
  }

  function BuildRecords(entries: seq<CalendarEntry>): (cs: seq<Calendar>)
    ensures |cs| == |entries|
    ensures forall i :: 0 <= i < |entries| ==> cs[i] == BuildRecord(entries[i])
  {
    seq(|entries|, i requires 0 <= i < |entries| => BuildRecord(entries[i]))
  }

  /** The sort key: a triple compared component by component. */
  datatype SortKey = SortKey(primaryKey: char, selectedKey: char, summary: string)

  /** `" "` for a set flag and `"X"` otherwise, so set flags sort first. */
  function FlagKey(flag: bool): char {
    if flag then ' ' else 'X'
  }

  function CalSortKey(c: Calendar): SortKey {
    SortKey(FlagKey(c.primary), FlagKey(c.selected), c.summary)
  }

  /** Tuple comparison of two keys: first component, then second, then summary. */
  predicate KeyLe(a: SortKey, b: SortKey) {
    || a.primaryKey < b.primaryKey
    || (&& a.primaryKey == b.primaryKey
        && (|| a.selectedKey < b.selectedKey
            || (a.selectedKey == b.selectedKey && LessOrEqual(a.summary, b.summary))))
  }

  /** `c` may stand before `d` in the sorted list. */
  predicate Precedes(c: Calendar, d: Calendar) {
    KeyLe(CalSortKey(c), CalSortKey(d))
  }

  ghost predicate Sorted(s: seq<Calendar>) {
    forall i, j :: 0 <= i < j < |s| ==> Precedes(s[i], s[j])
  }

  lemma KeyLeReflexive(k: SortKey)
    ensures KeyLe(k, k)
  {
    LessOrEqualReflexive(k.summary);
  }

  lemma KeyLeAntisymmetric(a: SortKey, b: SortKey)
    requires KeyLe(a, b) && KeyLe(b, a)
    ensures a == b
  {
    LessOrEqualAntisymmetric(a.summary, b.summary);
  }

  lemma KeyLeTransitive(a: SortKey, b: SortKey, c: SortKey)
    requires KeyLe(a, b) && KeyLe(b, c)
    ensures KeyLe(a, c)
  {
    if a.primaryKey == b.primaryKey == c.primaryKey && a.selectedKey == b.selectedKey == c.selectedKey {
      LessOrEqualTransitive(a.summary, b.summary, c.summary);
    }
  }

  lemma KeyLeTotal(a: SortKey, b: SortKey)
    ensures KeyLe(a, b) || KeyLe(b, a)
  {
    LessOrEqualTotal(a.summary, b.summary);
  }

  /** A calendar that precedes the head of a sorted list precedes all of it. */
  lemma PrecedesHeadPrecedesAll(c: Calendar, s: seq<Calendar>)
    requires Sorted(s) && |s| > 0 && Precedes(c, s[0])
    ensures forall j :: 0 <= j < |s| ==> Precedes(c, s[j])
  {
    forall j | 0 < j < |s|
      ensures Precedes(c, s[j])
    {
      KeyLeTransitive(CalSortKey(c), CalSortKey(s[0]), CalSortKey(s[j]));
    }
  }

  /**
    Inserts `c` into a sorted list before the first calendar it precedes,
    so that it lands ahead of calendars with an equal key.
   */
  function Insert(c: Calendar, s: seq<Calendar>): (r: seq<Calendar>)
    requires Sorted(s)
    ensures Sorted(r)
    ensures multiset(r) == multiset(s) + multiset{c}
    decreases |s|
  {
    if |s| == 0 then [c]
    else if Precedes(c, s[0]) then
      PrecedesHeadPrecedesAll(c, s);
      [c] + s
    else
      var rest := Insert(c, s[1..]);
      KeyLeTotal(CalSortKey(c), CalSortKey(s[0]));
      assert s == [s[0]] + s[1..];
      assert forall j :: 0 <= j < |rest| ==> Precedes(s[0], rest[j]) by {
        forall j | 0 <= j < |rest|
          ensures Precedes(s[0], rest[j])
        {
          assert rest[j] in multiset(rest);
          if rest[j] != c {
            assert rest[j] in s[1..];
          }
        }
      }
      [s[0]] + rest
  }

  /** A stable insertion sort by `CalSortKey`. */
  function Sort(s: seq<Calendar>): (r: seq<Calendar>)
    ensures Sorted(r)
    ensures multiset(r) == multiset(s)
    decreases |s|
  {
    if |s| == 0 then []
    else
      assert s == [s[0]] + s[1..];
      Insert(s[0], Sort(s[1..]))
  }

  /**
    The calendar list: one record per entry, sorted by key. The result is a
    permutation of the built records.
   */
  function ListCalendars(entries: seq<CalendarEntry>): (r: seq<Calendar>)
    ensures Sorted(r)
    ensures multiset(r) == multiset(BuildRecords(entries))
    ensures forall c :: c in r ==> exists i :: 0 <= i < |entries| && c == BuildRecord(entries[i])
  {
    var built := BuildRecords(entries);
    var r := Sort(built);
    assert forall c :: c in r ==> c in built by {
      forall c | c in r
        ensures c in built
      {
        assert c in multiset(r);
      }
    }
    r
  }

  /**
    In the sorted list a primary calendar never follows a non-primary one;
    among calendars of equal primary status a selected one never follows an
    unselected one; and calendars agreeing on both flags are in summary order.
   */
  lemma SortedGroupsInOrder(s: seq<Calendar>)
    requires Sorted(s)
    ensures forall i, j :: 0 <= i < j < |s| && s[j].primary ==> s[i].primary
    ensures forall i, j :: 0 <= i < j < |s| && s[i].primary == s[j].primary && s[j].selected ==> s[i].selected
    ensures forall i, j :: 0 <= i < j < |s| && s[i].primary == s[j].primary && s[i].selected == s[j].selected ==>
              LessOrEqual(s[i].summary, s[j].summary)
  {
    forall i, j | 0 <= i < j < |s|
      ensures s[j].primary ==> s[i].primary
      ensures s[i].primary == s[j].primary && s[j].selected ==> s[i].selected
      ensures s[i].primary == s[j].primary && s[i].selected == s[j].selected ==>
              LessOrEqual(s[i].summary, s[j].summary)
    {
      assert Precedes(s[i], s[j]);
    }
  }

  /**
    `cal_sort_key` read back in terms of the flags: a primary calendar goes
    before a non-primary one; with equal primary status a selected one goes
    before an unselected one; with both flags equal the summaries decide.
   */
  lemma PrecedesByFlags(c: Calendar, d: Calendar)
    ensures Precedes(c, d) <==>
      || (c.primary && !d.primary)
      || (&& c.primary == d.primary
          && (|| (c.selected && !d.selected)
              || (c.selected == d.selected && LessOrEqual(c.summary, d.summary))))
  {
  }

  /**
    The converse of `SortedGroupsInOrder`: a list in which primary, then
    selected calendars come first and equal-flag calendars are in summary
    order is sorted by the key.
   */
  lemma GroupsInOrderSorted(s: seq<Calendar>)
    requires forall i, j :: 0 <= i < j < |s| && s[j].primary ==> s[i].primary
    requires forall i, j :: 0 <= i < j < |s| && s[i].primary == s[j].primary && s[j].selected ==> s[i].selected
    requires forall i, j :: 0 <= i < j < |s| && s[i].primary == s[j].primary && s[i].selected == s[j].selected ==>
               LessOrEqual(s[i].summary, s[j].summary)
    ensures Sorted(s)
  {
    forall i, j | 0 <= i < j < |s|
      ensures Precedes(s[i], s[j])
    {
      PrecedesByFlags(s[i], s[j]);
    }
  }

  lemma ListCalendarsOrder(entries: seq<CalendarEntry>)
    ensures var r := ListCalendars(entries);
      && (forall i, j :: 0 <= i < j < |r| && r[j].primary ==> r[i].primary)
      && (forall i, j :: 0 <= i < j < |r| && r[i].primary == r[j].primary && r[j].selected ==> r[i].selected)
      && (forall i, j :: 0 <= i < j < |r| && r[i].primary == r[j].primary && r[i].selected == r[j].selected ==>
            LessOrEqual(r[i].summary, r[j].summary))
  {
    SortedGroupsInOrder(ListCalendars(entries));
  }

  /** The calendars of `s` that have key `k`, in order. */
  function WithKey(s: seq<Calendar>, k: SortKey): (r: seq<Calendar>)
    decreases |s|
  {
    if |s| == 0 then []
    else (if CalSortKey(s[0]) == k then [s[0]] else []) + WithKey(s[1..], k)
  }

  lemma {:induction false} WithKeyAppend(a: seq<Calendar>, b: seq<Calendar>, k: SortKey)
    ensures WithKey(a + b, k) == WithKey(a, k) + WithKey(b, k)
    decreases |a|
  {
    if |a| == 0 {
      assert a + b == b;
    } else {
      assert (a + b)[1..] == a[1..] + b;
      WithKeyAppend(a[1..], b, k);
    }
  }

  lemma {:induction false} WithKeyMembers(s: seq<Calendar>, k: SortKey)
    ensures forall c :: c in WithKey(s, k) ==> c in s && CalSortKey(c) == k
    decreases |s|
  {
    if |s| > 0 {
      WithKeyMembers(s[1..], k);
    }
  }

  /** Inserting adds `c` to its own key's group, ahead of the calendars already there. */
  lemma {:induction false} InsertWithKey(c: Calendar, s: seq<Calendar>, k: SortKey)
    requires Sorted(s)
    ensures WithKey(Insert(c, s), k) == (if CalSortKey(c) == k then [c] else []) + WithKey(s, k)
    decreases |s|
  {
    if |s| == 0 {
    } else if Precedes(c, s[0]) {
      WithKeyAppend([c], s, k);
      assert [c][1..] == [];
    } else {
      var rest := Insert(c, s[1..]);
      assert Insert(c, s) == [s[0]] + rest;
      assert ([s[0]] + rest)[1..] == rest;
      InsertWithKey(c, s[1..], k);
      if CalSortKey(s[0]) == CalSortKey(c) {
        KeyLeReflexive(CalSortKey(c));
      }
    }
  }

  /**
    The sort is stable: the calendars sharing any one key appear in the
    output in the order they had in the input.
   */
  lemma {:induction false} SortStable(s: seq<Calendar>, k: SortKey)
    ensures WithKey(Sort(s), k) == WithKey(s, k)
    decreases |s|
  {
    if |s| > 0 {
      SortStable(s[1..], k);
      InsertWithKey(s[0], Sort(s[1..]), k);
    }
  }

  /** The head of a list comes first in the group of its own key. */
  lemma HeadLeadsItsGroup(s: seq<Calendar>)
    requires |s| > 0
    ensures WithKey(s, CalSortKey(s[0])) == [s[0]] + WithKey(s[1..], CalSortKey(s[0]))
  {
  }

  /** The head of a sorted list has the least key of the list. */
  lemma HeadKeyLeast(s: seq<Calendar>, c: Calendar)
    requires Sorted(s) && c in s
    ensures KeyLe(CalSortKey(s[0]), CalSortKey(c))
  {
    var j :| 0 <= j < |s| && s[j] == c;
    if j == 0 {
      KeyLeReflexive(CalSortKey(c));
    }
  }

  /** Two sorted, non-empty lists whose heads' groups agree start with the same calendar. */
  lemma SameGroupsSameHead(a: seq<Calendar>, b: seq<Calendar>)
    requires Sorted(a) && Sorted(b) && |a| > 0 && |b| > 0
    requires WithKey(a, CalSortKey(a[0])) == WithKey(b, CalSortKey(a[0]))
    requires WithKey(a, CalSortKey(b[0])) == WithKey(b, CalSortKey(b[0]))
    ensures a[0] == b[0]
  {
    var ka, kb := CalSortKey(a[0]), CalSortKey(b[0]);
    HeadLeadsItsGroup(a);
    HeadLeadsItsGroup(b);
    WithKeyMembers(b, ka);
    WithKeyMembers(a, kb);
    assert a[0] == WithKey(b, ka)[0];
    assert b[0] == WithKey(a, kb)[0];
    HeadKeyLeast(b, a[0]);
    HeadKeyLeast(a, b[0]);
    KeyLeAntisymmetric(ka, kb);
  }

  /**
    Two sorted lists with the same calendars in every key group are equal:
    sorting by key with ties kept in input order has exactly one outcome.
   */
  lemma {:induction false} SortedWithSameGroupsEqual(a: seq<Calendar>, b: seq<Calendar>)
    requires Sorted(a) && Sorted(b)
    requires forall k :: WithKey(a, k) == WithKey(b, k)
    ensures a == b
    decreases |a|
  {
    if |a| > 0 {
      HeadLeadsItsGroup(a);
      assert WithKey(a, CalSortKey(a[0])) == WithKey(b, CalSortKey(a[0]));
    }
    if |b| > 0 {
      HeadLeadsItsGroup(b);
      assert WithKey(a, CalSortKey(b[0])) == WithKey(b, CalSortKey(b[0]));
    }
    if |a| > 0 && |b| > 0 {
      SameGroupsSameHead(a, b);
      forall k
        ensures WithKey(a[1..], k) == WithKey(b[1..], k)
      {
        var head := if CalSortKey(a[0]) == k then [a[0]] else [];
        assert WithKey(a, k) == head + WithKey(a[1..], k);
        assert WithKey(b, k) == head + WithKey(b[1..], k);
        assert WithKey(a[1..], k) == WithKey(a, k)[|head|..];
      }
      SortedWithSameGroupsEqual(a[1..], b[1..]);
      assert a == [a[0]] + a[1..];
      assert b == [b[0]] + b[1..];
    }
  }

  /**
    Any sorted arrangement of the records that keeps equal-key calendars in
    input order, which is what a stable library sort returns, is exactly the
    list this model produces.
   */
  lemma StableSortIsUnique(entries: seq<CalendarEntry>, t: seq<Calendar>)
    requires Sorted(t)
    requires forall k :: WithKey(t, k) == WithKey(BuildRecords(entries), k)
    ensures t == ListCalendars(entries)
  {
    var built := BuildRecords(entries);
    forall k
      ensures WithKey(Sort(built), k) == WithKey(t, k)
    {
      SortStable(built, k);
    }
    SortedWithSameGroupsEqual(Sort(built), t);
  }
}
