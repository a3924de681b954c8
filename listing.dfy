/**
 * The derived listing of the students page: the sort configuration and its
 * toggle, the comparator-driven stable sort, the case-insensitive search
 * filter, fixed-size pagination, the "Showing X-Y of Z" bounds, the Prev/Next
 * clamps, the five-button page window and the marks badge.
 */
module Listing {
  import opened Records
  import opened Text

  datatype SortKey = Name | Email | Subject | Marks
  datatype Direction = Ascending | Descending
  datatype SortConfig = SortConfig(key: SortKey, direction: Direction)

  /** The page opens sorted by marks, highest first. */
  const InitialSortConfig: SortConfig := SortConfig(Marks, Descending)

  const StudentsPerPage: int := 5

  function Min(a: int, b: int): int { if a <= b then a else b }
  function Max(a: int, b: int): int { if a <= b then b else a }

  // ---------------------------------------------------------------------------
  // Sort-key toggle

  /** The configuration after a click on the column header of key. */
  function NextSortConfig(cfg: SortConfig, key: SortKey): (r: SortConfig)
    ensures r.key == key
    ensures r.direction == Descending <==> cfg == SortConfig(key, Ascending)
  {
    SortConfig(key, if cfg.key == key && cfg.direction == Ascending then Descending else Ascending)
  }

  /**
   * Two clicks on the same header: a column that was already the sort key gets
   * its configuration back; a new column ends up descending.
   */
  lemma SortToggleTwice(cfg: SortConfig, key: SortKey)
    ensures NextSortConfig(NextSortConfig(cfg, key), key)
         == if cfg.key == key then cfg else SortConfig(key, Descending)
  {
  }

  // ---------------------------------------------------------------------------
  // Comparator and sort

  /** The value a record is sorted by under key. */
  datatype SortValue = NumberValue(n: int) | TextValue(t: string)

  function ValueOf(key: SortKey, st: Student): SortValue {
    match key
    case Name => TextValue(st.name)
    case Email => TextValue(st.email)
    case Subject => TextValue(st.subject)
    case Marks => NumberValue(st.marks)
  }

  /**
   * The comparator handed to `sort`: the numeric difference on marks, the
   * string comparison on the text columns, operands swapped when descending.
   */
  function Compare(cfg: SortConfig, a: Student, b: Student): (r: int)
    ensures r == 0 <==> ValueOf(cfg.key, a) == ValueOf(cfg.key, b)
    ensures cfg.key == Marks ==>
      (r < 0 <==> if cfg.direction == Ascending then a.marks < b.marks else b.marks < a.marks)
  {
    match (ValueOf(cfg.key, a), ValueOf(cfg.key, b))
    case (NumberValue(x), NumberValue(y)) =>
      if cfg.direction == Ascending then x - y else y - x
    case (TextValue(x), TextValue(y)) =>
      if cfg.direction == Ascending then LocaleCompare(x, y) else LocaleCompare(y, x)
    case _ => assert false; 0
  }

  /** Descending order is ascending order with the operands exchanged. */
  lemma DescendingIsSwappedAscending(key: SortKey, a: Student, b: Student)
    ensures Compare(SortConfig(key, Descending), a, b) == Compare(SortConfig(key, Ascending), b, a)
  {
  }

  lemma CompareAntisymmetric(cfg: SortConfig, a: Student, b: Student)
    ensures Compare(cfg, b, a) == -Compare(cfg, a, b)
  {
    if cfg.key != Marks {
      var x, y := ValueOf(cfg.key, a).t, ValueOf(cfg.key, b).t;
      LocaleCompareAntisymmetric(x, y);
    }
  }

  lemma CompareTransitive(cfg: SortConfig, a: Student, b: Student, c: Student)
    requires Compare(cfg, a, b) <= 0 && Compare(cfg, b, c) <= 0
    ensures Compare(cfg, a, c) <= 0
  {
    if cfg.key != Marks {
      var x, y, z := ValueOf(cfg.key, a).t, ValueOf(cfg.key, b).t, ValueOf(cfg.key, c).t;
      if cfg.direction == Ascending {
        LocaleCompareTransitive(x, y, z);
      } else {
        LocaleCompareTransitive(z, y, x);
      }
    }
  }

  /** s is ordered by the comparator of cfg. */
  ghost predicate Sorted(cfg: SortConfig, s: seq<Student>) {
    forall i, j :: 0 <= i < j < |s| ==> Compare(cfg, s[i], s[j]) <= 0
  }

  /** Inserts x in front of the first element it does not sort after. */
  function Insert(cfg: SortConfig, x: Student, t: seq<Student>): (r: seq<Student>)
    ensures |r| == |t| + 1
  {
    if t == [] then [x]
    else if Compare(cfg, x, t[0]) <= 0 then [x] + t
    else [t[0]] + Insert(cfg, x, t[1..])
  }

  /** `[...students].sort(comparator)`: a stable sort, written as insertion sort. */
  function SortStudents(cfg: SortConfig, s: seq<Student>): (r: seq<Student>)
    ensures |r| == |s|
  {
    if s == [] then [] else Insert(cfg, s[0], SortStudents(cfg, s[1..]))
  }

  lemma {:induction false} InsertPermutes(cfg: SortConfig, x: Student, t: seq<Student>)
    ensures multiset(Insert(cfg, x, t)) == multiset(t) + multiset{x}
  {
    if t != [] && Compare(cfg, x, t[0]) > 0 {
      InsertPermutes(cfg, x, t[1..]);
      assert t == [t[0]] + t[1..];
    }
  }

  /** The sorted copy holds the same records as the input, each as often. */
  lemma {:induction false} SortIsPermutation(cfg: SortConfig, s: seq<Student>)
    ensures multiset(SortStudents(cfg, s)) == multiset(s)
  {
    if s != [] {
      SortIsPermutation(cfg, s[1..]);
      InsertPermutes(cfg, s[0], SortStudents(cfg, s[1..]));
      assert s == [s[0]] + s[1..];
    }
  }

  /** Every element of Insert(cfg, x, t) is x or an element of t. */
  lemma InsertMembers(cfg: SortConfig, x: Student, t: seq<Student>, y: Student)
    requires y in Insert(cfg, x, t)
    ensures y == x || y in t
  {
    InsertPermutes(cfg, x, t);
    assert y in multiset(Insert(cfg, x, t));
  }

  lemma {:induction false} InsertSorted(cfg: SortConfig, x: Student, t: seq<Student>)
    requires Sorted(cfg, t)
    ensures Sorted(cfg, Insert(cfg, x, t))
  {
    var r := Insert(cfg, x, t);
    if t == [] {
      assert r == [x];
    } else if Compare(cfg, x, t[0]) <= 0 {
      assert r == [x] + t;
      forall j | 0 < j < |t| ensures Compare(cfg, x, t[j]) <= 0 {
        CompareTransitive(cfg, x, t[0], t[j]);
      }
    } else {
      CompareAntisymmetric(cfg, x, t[0]);
      var tail := t[1..];
      var u := Insert(cfg, x, tail);
      assert r == [t[0]] + u;
      InsertSorted(cfg, x, tail);
      forall j | 0 <= j < |u| ensures Compare(cfg, t[0], u[j]) <= 0 {
        InsertMembers(cfg, x, tail, u[j]);
        if u[j] != x {
          var k :| 0 <= k < |tail| && tail[k] == u[j];
          assert t[k + 1] == u[j];
        }
      }
      forall i, j | 0 <= i < j < |r| ensures Compare(cfg, r[i], r[j]) <= 0 {
        assert r[j] == u[j - 1];
        if i > 0 { assert r[i] == u[i - 1]; }
      }
    }
  }

  /** The sorted list is ordered by the comparator. */
  lemma {:induction false} SortIsSorted(cfg: SortConfig, s: seq<Student>)
    ensures Sorted(cfg, SortStudents(cfg, s))
  {
    if s != [] {
      SortIsSorted(cfg, s[1..]);
      InsertSorted(cfg, s[0], SortStudents(cfg, s[1..]));
    }
  }

  /** The test "carries sort value v under key". */
  function HasValue(key: SortKey, v: SortValue): Student -> bool {
    (x: Student) => ValueOf(key, x) == v
  }

  /** The records of s whose sort value is v, in their order in s. */
  function Ties(key: SortKey, s: seq<Student>, v: SortValue): seq<Student> {
    Filter(s, HasValue(key, v))
  }

  lemma {:induction false} InsertTies(cfg: SortConfig, x: Student, t: seq<Student>, v: SortValue)
    ensures Ties(cfg.key, Insert(cfg, x, t), v)
         == (if ValueOf(cfg.key, x) == v then [x] else []) + Ties(cfg.key, t, v)
  {
    var keep := HasValue(cfg.key, v);
    var r := Insert(cfg, x, t);
    var mine := if ValueOf(cfg.key, x) == v then [x] else [];
    assert keep(x) == (ValueOf(cfg.key, x) == v);
    FilterCons(r, keep);
    if t == [] {
      assert r == [x] && r[1..] == [];
      assert Filter(r, keep) == mine + Filter(t, keep);
    } else if Compare(cfg, x, t[0]) <= 0 {
      assert r == [x] + t;
      assert r[0] == x && r[1..] == t;
      assert Filter(r, keep) == mine + Filter(t, keep);
    } else {
      var u := Insert(cfg, x, t[1..]);
      assert r == [t[0]] + u;
      assert r[0] == t[0] && r[1..] == u;
      InsertTies(cfg, x, t[1..], v);
      FilterCons(t, keep);
      var rest := Filter(t[1..], keep);
      var head := if keep(t[0]) then [t[0]] else [];
      assert Filter(u, keep) == mine + rest;
      assert Filter(r, keep) == head + Filter(u, keep);
      assert Filter(t, keep) == head + rest;
      if keep(x) {
        assert !keep(t[0]);
        assert head == [];
        assert Filter(r, keep) == Filter(u, keep);
        assert Filter(t, keep) == rest;
        assert Filter(r, keep) == mine + Filter(t, keep);
      } else {
        assert mine == [];
        assert Filter(u, keep) == rest;
        assert Filter(r, keep) == Filter(t, keep);
        assert mine + Filter(t, keep) == Filter(t, keep);
      }
    }
    assert Filter(r, keep) == mine + Filter(t, keep);
    assert Ties(cfg.key, r, v) == Filter(r, keep);
    assert Ties(cfg.key, t, v) == Filter(t, keep);
  }

  /**
   * Stability: for every sort value, the records carrying it appear in the
   * sorted list in their original relative order.
   */
  lemma {:induction false} SortIsStable(cfg: SortConfig, s: seq<Student>, v: SortValue)
    ensures Ties(cfg.key, SortStudents(cfg, s), v) == Ties(cfg.key, s, v)
  {
    if s != [] {
      SortIsStable(cfg, s[1..], v);
      InsertTies(cfg, s[0], SortStudents(cfg, s[1..]), v);
    }
  }

  // ---------------------------------------------------------------------------
  // Filtering

  /** `Array.prototype.filter`. */
  function Filter<T(!new)>(s: seq<T>, keep: T -> bool): (r: seq<T>)
    ensures |r| <= |s|
    ensures forall x :: x in r <==> x in s && keep(x)
  {
    if s == [] then []
    else
      var r := (if keep(s[0]) then [s[0]] else []) + Filter(s[1..], keep);
      assert forall x :: x in s <==> x == s[0] || x in s[1..];
      r
  }

  /** One step of the filter: the first element if it passes, then the filtered rest. */
  lemma FilterCons<T(!new)>(s: seq<T>, keep: T -> bool)
    requires s != []
    ensures Filter(s, keep) == (if keep(s[0]) then [s[0]] else []) + Filter(s[1..], keep)
  {
  }

  /** Every index one further on. */
  function Shift(idx: seq<nat>): (r: seq<nat>)
    ensures |r| == |idx|
    ensures forall k :: 0 <= k < |r| ==> r[k] == idx[k] + 1
  {
    if idx == [] then [] else [idx[0] + 1] + Shift(idx[1..])
  }

  /** The positions of s that the filter accepts, in increasing order. */
  function KeptPositions<T>(s: seq<T>, keep: T -> bool): (idx: seq<nat>)
    ensures |idx| <= |s|
  {
    if s == [] then [] else (if keep(s[0]) then [0] else []) + Shift(KeptPositions(s[1..], keep))
  }

  lemma {:induction false} KeptPositionsRead<T(!new)>(s: seq<T>, keep: T -> bool)
    ensures |KeptPositions(s, keep)| == |Filter(s, keep)|
    ensures forall k :: 0 <= k < |KeptPositions(s, keep)| ==>
      KeptPositions(s, keep)[k] < |s| && Filter(s, keep)[k] == s[KeptPositions(s, keep)[k]]
  {
    if s != [] {
      var tail := s[1..];
      KeptPositionsRead(tail, keep);
      var rest, ft := KeptPositions(tail, keep), Filter(tail, keep);
      var h := if keep(s[0]) then 1 else 0;
      var idx, r := KeptPositions(s, keep), Filter(s, keep);
      assert idx == (if keep(s[0]) then [0] else []) + Shift(rest);
      assert r == (if keep(s[0]) then [s[0]] else []) + ft;
      forall k | h <= k < |idx| ensures idx[k] < |s| && r[k] == s[idx[k]] {
        assert idx[k] == rest[k - h] + 1 && r[k] == ft[k - h] == tail[rest[k - h]];
      }
    }
  }

  /** The indices of idx grow strictly from left to right. */
  predicate Increasing(idx: seq<nat>) {
    forall k, l :: 0 <= k < l < |idx| ==> idx[k] < idx[l]
  }

  lemma ShiftIncreasing(idx: seq<nat>)
    requires Increasing(idx)
    ensures Increasing(Shift(idx))
    ensures forall k :: 0 <= k < |Shift(idx)| ==> Shift(idx)[k] >= 1
  {
  }

  lemma {:induction false} KeptPositionsIncrease<T>(s: seq<T>, keep: T -> bool)
    ensures Increasing(KeptPositions(s, keep))
  {
    if s != [] {
      var rest := KeptPositions(s[1..], keep);
      KeptPositionsIncrease(s[1..], keep);
      ShiftIncreasing(rest);
      var idx, sh := KeptPositions(s, keep), Shift(rest);
      if keep(s[0]) {
        assert idx == [0] + sh;
        forall k, l | 0 <= k < l < |idx| ensures idx[k] < idx[l] {
          assert idx[l] == sh[l - 1];
          if k > 0 {
            assert idx[k] == sh[k - 1];
          }
        }
      } else {
        assert idx == sh;
      }
    }
  }

  lemma {:induction false} KeptPositionsComplete<T>(s: seq<T>, keep: T -> bool)
    ensures forall i :: 0 <= i < |s| && keep(s[i]) ==> i in KeptPositions(s, keep)
  {
    if s != [] {
      var tail := s[1..];
      KeptPositionsComplete(tail, keep);
      var rest := KeptPositions(tail, keep);
      var h := if keep(s[0]) then 1 else 0;
      var idx := KeptPositions(s, keep);
      forall i | 0 <= i < |s| && keep(s[i]) ensures i in idx {
        if i == 0 {
          assert idx[0] == 0;
        } else {
          assert tail[i - 1] == s[i];
          var k :| 0 <= k < |rest| && rest[k] == i - 1;
          assert idx[k + h] == i;
        }
      }
    }
  }

  /**
   * The filter keeps exactly the records it accepts, in their order: the result
   * is s read at strictly increasing positions, and every accepted position of
   * s is among them.
   */
  lemma FilterKeepsOrder<T(!new)>(s: seq<T>, keep: T -> bool)
    ensures var idx := KeptPositions(s, keep);
      && |idx| == |Filter(s, keep)|
      && (forall k :: 0 <= k < |idx| ==> idx[k] < |s| && Filter(s, keep)[k] == s[idx[k]])
      && (forall k, l :: 0 <= k < l < |idx| ==> idx[k] < idx[l])
      && (forall i :: 0 <= i < |s| && keep(s[i]) ==> i in idx)
  {
    KeptPositionsRead(s, keep);
    KeptPositionsIncrease(s, keep);
    KeptPositionsComplete(s, keep);
  }

  /** How often x occurs in the filtered list: as often as in s if it is kept, never otherwise. */
  lemma {:induction false} FilterCount<T(!new)>(s: seq<T>, keep: T -> bool, x: T)
    ensures multiset(Filter(s, keep))[x] == if keep(x) then multiset(s)[x] else 0
  {
    if s != [] {
      FilterCount(s[1..], keep, x);
      assert s == [s[0]] + s[1..];
    }
  }

  /** Reordering the input does not change which records the filter keeps. */
  lemma FilterPermutation<T(!new)>(s: seq<T>, t: seq<T>, keep: T -> bool)
    requires multiset(s) == multiset(t)
    ensures multiset(Filter(s, keep)) == multiset(Filter(t, keep))
  {
    forall x ensures multiset(Filter(s, keep))[x] == multiset(Filter(t, keep))[x] {
      FilterCount(s, keep, x);
      FilterCount(t, keep, x);
    }
  }

  /** Filtering twice with the same test is filtering once. */
  lemma {:induction false} FilterIdempotent<T(!new)>(s: seq<T>, keep: T -> bool)
    ensures Filter(Filter(s, keep), keep) == Filter(s, keep)
  {
    if s != [] {
      var r, ft := Filter(s, keep), Filter(s[1..], keep);
      FilterIdempotent(s[1..], keep);
      if keep(s[0]) {
        assert r == [s[0]] + ft;
        assert r[0] == s[0] && r[1..] == ft;
      } else {
        assert r == ft;
      }
    }
  }

  /** A filter that accepts everything keeps everything. */
  lemma {:induction false} FilterAll<T(!new)>(s: seq<T>, keep: T -> bool)
    requires forall x :: x in s ==> keep(x)
    ensures Filter(s, keep) == s
  {
    if s != [] {
      FilterAll(s[1..], keep);
    }
  }

  // ---------------------------------------------------------------------------
  // Search

  /** The lowered name, email or subject of st contains the lowered search term. */
  function Matches(st: Student, term: string): (r: bool)
    ensures r <==> exists i :: (OccursAt(Lower(st.name), Lower(term), i)
      || OccursAt(Lower(st.email), Lower(term), i) || OccursAt(Lower(st.subject), Lower(term), i))
    ensures term == [] ==> r
  {
    var t := Lower(term);
    assert term == [] ==> OccursAt(Lower(st.name), t, 0);
    Includes(Lower(st.name), t) || Includes(Lower(st.email), t) || Includes(Lower(st.subject), t)
  }

  /** The search ignores the case of the term: lowering it first matches the same records. */
  lemma MatchesIgnoresCase(st: Student, term: string)
    ensures Matches(st, Lower(term)) == Matches(st, term)
  {
    LowerIdempotent(term);
  }

  /** `sortedStudents.filter(...)` with the search term. */
  function FilterStudents(s: seq<Student>, term: string): (r: seq<Student>)
    ensures |r| <= |s|
    ensures forall st :: st in r <==> st in s && Matches(st, term)
  {
    Filter(s, (st: Student) => Matches(st, term))
  }

  /** An empty search keeps every record. */
  lemma FilterEmptyTerm(s: seq<Student>)
    ensures FilterStudents(s, "") == s
  {
    forall st: Student ensures Matches(st, "") {
      assert OccursAt(Lower(st.name), Lower(""), 0);
    }
    FilterAll(s, (st: Student) => Matches(st, ""));
  }

  /** Filtering the sorted list leaves it sorted: the filter preserves the order of the sort. */
  lemma FilteredIsSorted(cfg: SortConfig, s: seq<Student>, term: string)
    ensures Sorted(cfg, FilterStudents(SortStudents(cfg, s), term))
  {
    var t := SortStudents(cfg, s);
    SortIsSorted(cfg, s);
    var keep := (st: Student) => Matches(st, term);
    FilterKeepsOrder(t, keep);
    var idx := KeptPositions(t, keep);
    var r := FilterStudents(t, term);
    forall i, j | 0 <= i < j < |r| ensures Compare(cfg, r[i], r[j]) <= 0 {
      assert r[i] == t[idx[i]] && r[j] == t[idx[j]] && idx[i] < idx[j];
    }
  }

  /** The filtered listing: the sorted students that match the search term. */
  function FilteredStudents(cfg: SortConfig, students: seq<Student>, term: string): (r: seq<Student>)
    ensures |r| <= |students|
    ensures forall st :: st in r <==> st in students && Matches(st, term)
  {
    var sorted := SortStudents(cfg, students);
    SortIsPermutation(cfg, students);
    assert forall st :: st in sorted <==> st in multiset(sorted);
    FilterStudents(sorted, term)
  }

  /**
   * The page as first shown: with no search term, a record of 90 marks is
   * listed before a record of 50 marks that came first.
   */
  lemma InitialListingExample(x: Student, y: Student)
    requires x.marks == 50 && y.marks == 90
    ensures FilteredStudents(InitialSortConfig, [x, y], "") == [y, x]
  {
    var cfg := InitialSortConfig;
    assert [x, y][1..] == [y];
    assert SortStudents(cfg, [y]) == Insert(cfg, y, []) == [y];
    assert Insert(cfg, x, [y]) == [y] + Insert(cfg, x, []);
    FilterEmptyTerm([y, x]);
  }

  /**
   * Records with equal marks keep their input order in both directions, so
   * the descending listing is not the ascending one reversed when marks tie.
   */
  lemma TiesKeepInputOrder(x: Student, y: Student)
    requires x.marks == y.marks && x != y
    ensures SortStudents(SortConfig(Marks, Ascending), [x, y]) == [x, y]
    ensures SortStudents(SortConfig(Marks, Descending), [x, y]) == [x, y]
  {
    assert [x, y][1..] == [y];
    assert SortStudents(SortConfig(Marks, Ascending), [y]) == [y];
    assert SortStudents(SortConfig(Marks, Descending), [y]) == [y];
  }

  // ---------------------------------------------------------------------------
  // Pagination

  /** `Math.ceil(n / studentsPerPage)`: the fewest pages that hold n records. */
  function TotalPages(n: nat): (r: nat)
    ensures r * StudentsPerPage >= n
    ensures r > 0 ==> (r - 1) * StudentsPerPage < n
  {
    (n + 4) / 5
  }

  /** Where `slice` starts or stops for index i: negative indices count from the end. */
  function SliceIndex(i: int, len: nat): (r: nat)
    ensures r <= len
  {
    if i < 0 then (if len + i < 0 then 0 else len + i)
    else if i < len then i else len
  }

  /** `Array.prototype.slice(start, end)`. */
  function Slice(s: seq<Student>, start: int, end: int): (r: seq<Student>)
    ensures |r| <= |s|
    ensures 0 <= start <= end <= |s| ==> r == s[start..end]
    ensures 0 <= start <= |s| <= end ==> r == s[start..]
    ensures 0 <= start && (|s| <= start || 0 <= end <= start) ==> r == []
  {
    var b, e := SliceIndex(start, |s|), SliceIndex(end, |s|);
    if b < e then s[b..e] else []
  }

  /**
   * `displayedStudents`: for page p (counted from 1), the records from
   * position (p - 1) * 5 on, at most five of them.
   */
  function DisplayedStudents(s: seq<Student>, page: int): (r: seq<Student>)
    ensures page >= 1 ==>
      |r| == Min(StudentsPerPage, Max(0, |s| - (page - 1) * StudentsPerPage))
    ensures page >= 1 ==>
      forall k :: 0 <= k < |r| ==> r[k] == s[(page - 1) * StudentsPerPage + k]
  {
    Slice(s, (page - 1) * StudentsPerPage, page * StudentsPerPage)
  }

  /** Pages 1 to k, one after the other. */
  function PagesUpTo(s: seq<Student>, k: nat): seq<Student> {
    if k == 0 then [] else PagesUpTo(s, k - 1) + DisplayedStudents(s, k)
  }

  lemma {:induction false} PagesUpToIsPrefix(s: seq<Student>, k: nat)
    ensures PagesUpTo(s, k) == s[..Min(k * StudentsPerPage, |s|)]
  {
    if k > 0 {
      PagesUpToIsPrefix(s, k - 1);
      var d := DisplayedStudents(s, k);
      var lo, hi := Min((k - 1) * StudentsPerPage, |s|), Min(k * StudentsPerPage, |s|);
      assert d == s[lo..hi];
      assert s[..lo] + s[lo..hi] == s[..hi];
    }
  }

  /** Pages 1 to totalPages, concatenated in order, are exactly the filtered list. */
  lemma PagesCoverList(s: seq<Student>)
    ensures PagesUpTo(s, TotalPages(|s|)) == s
  {
    PagesUpToIsPrefix(s, TotalPages(|s|));
  }

  /** Every page from 1 to totalPages shows something; no page after it does. */
  lemma PagesInRangeAreNonEmpty(s: seq<Student>, page: int)
    requires page >= 1
    ensures DisplayedStudents(s, page) != [] <==> page <= TotalPages(|s|)
  {
  }

  /** The first number of "Showing X-Y of Z". */
  function ShowingFrom(page: int): (r: int)
    ensures page >= 1 ==> r >= 1 && (r - 1) % StudentsPerPage == 0
  {
    (page - 1) * StudentsPerPage + 1
  }

  /** The second number of "Showing X-Y of Z". */
  function ShowingTo(page: int, n: nat): (r: int)
    ensures r <= n && r <= page * StudentsPerPage
    ensures r == n || r == page * StudentsPerPage
  {
    Min(page * StudentsPerPage, n)
  }

  /**
   * On a page in range, "Showing X-Y of Z" names exactly the displayed
   * records: positions X to Y (from 1) of the filtered list.
   */
  lemma ShowingDescribesPage(s: seq<Student>, page: int)
    requires 1 <= page <= TotalPages(|s|)
    ensures 1 <= ShowingFrom(page) <= ShowingTo(page, |s|) <= |s|
    ensures ShowingTo(page, |s|) - ShowingFrom(page) + 1 == |DisplayedStudents(s, page)|
    ensures DisplayedStudents(s, page)[0] == s[ShowingFrom(page) - 1]
    ensures DisplayedStudents(s, page)[|DisplayedStudents(s, page)| - 1] == s[ShowingTo(page, |s|) - 1]
  {
  }

  // ---------------------------------------------------------------------------
  // Navigation

  /** The "previous" button. */
  function PreviousPage(page: int): (r: int)
    ensures r >= 1
    ensures page > 1 ==> r == page - 1
    ensures page <= 1 ==> r == 1
  {
    Max(1, page - 1)
  }

  /** The "next" button. */
  function NextPage(page: int, totalPages: nat): (r: int)
    ensures r <= totalPages
    ensures page < totalPages ==> r == page + 1
    ensures page >= totalPages ==> r == totalPages
  {
    Min(totalPages, page + 1)
  }

  /** Prev and Next never leave [1, totalPages] once inside it. */
  lemma NavigationStaysInRange(page: int, totalPages: nat)
    requires 1 <= page <= totalPages
    ensures 1 <= PreviousPage(page) <= totalPages
    ensures 1 <= NextPage(page, totalPages) <= totalPages
  {
  }

  /** The number on button i of the page window. */
  function WindowButton(i: int, page: int, totalPages: nat): int {
    if totalPages <= 5 then i + 1
    else if page <= 3 then i + 1
    else if page >= totalPages - 2 then totalPages - 4 + i
    else page - 2 + i
  }

  /**
   * The page-number buttons: min(5, totalPages) consecutive pages, all in
   * [1, totalPages], including the current page whenever it is in range.
   * With more than five pages the window is centred on the current page,
   * and pinned to the first or the last five pages near either end.
   */
  function PageWindow(page: int, totalPages: nat): (w: seq<int>)
    ensures |w| == Min(5, totalPages)
    ensures forall i :: 0 <= i < |w| ==> 1 <= w[i] <= totalPages
    ensures forall i :: 0 < i < |w| ==> w[i] == w[i - 1] + 1
    ensures 1 <= page <= totalPages ==> page in w
    ensures totalPages > 5 ==> (|w| == 5
      && (page <= 3 ==> w[0] == 1)
      && (page >= totalPages - 2 ==> w[4] == totalPages)
      && (3 < page < totalPages - 2 ==> w[2] == page))
  {
    var w := seq(Min(5, totalPages), i => WindowButton(i, page, totalPages));
    if 1 <= page <= totalPages then
      var i := if totalPages <= 5 || page <= 3 then page - 1
               else if page >= totalPages - 2 then page - totalPages + 4
               else 2;
      assert w[i] == page;
      w
    else w
  }

  // ---------------------------------------------------------------------------
  // Marks badge

  datatype Badge = Green | Blue | Yellow | Red

  /** The colour of the marks badge in the table. */
  function BadgeOf(marks: int): (b: Badge)
    ensures b == Green <==> marks >= 80
    ensures b == Blue <==> 60 <= marks < 80
    ensures b == Yellow <==> 40 <= marks < 60
    ensures b == Red <==> marks < 40
  {
    if marks >= 80 then Green
    else if marks >= 60 then Blue
    else if marks >= 40 then Yellow
    else Red
  }

  function BadgeRank(b: Badge): nat {
    match b
    case Red => 0
    case Yellow => 1
    case Blue => 2
    case Green => 3
  }

  /** Higher marks never get a lower badge. */
  lemma BadgeMonotone(m1: int, m2: int)
    requires m1 <= m2
    ensures BadgeRank(BadgeOf(m1)) <= BadgeRank(BadgeOf(m2))
  {
  }
}
