/**
 * The bar chart's data: students grouped by their exact marks, with a count
 * and the names of each group, and the two summary figures (how many students,
 * their mean marks).
 */
module BarChart {
  import opened Records

  /** One bar: a marks value, how many students have it, and their names. */
  datatype Group = Group(marks: int, count: nat, names: seq<string>)

  // ---------------------------------------------------------------------------
  // Aggregation

  /** `acc.find(entry => entry.marks === marks)`, as an index; |groups| when there is none. */
  function FindGroup(groups: seq<Group>, marks: int): (k: nat)
    ensures k <= |groups|
    ensures k < |groups| ==> groups[k].marks == marks
    ensures forall i :: 0 <= i < k ==> groups[i].marks != marks
  {
    if groups == [] then 0
    else if groups[0].marks == marks then 0
    else 1 + FindGroup(groups[1..], marks)
  }

  /** One step of the `reduce`: count st in its group, or open a group for it. */
  function AddStudent(groups: seq<Group>, st: Student): (r: seq<Group>)
    ensures r != [] && |groups| <= |r| <= |groups| + 1
    ensures TotalCount(r) == TotalCount(groups) + 1
  {
    var k := FindGroup(groups, st.marks);
    if k < |groups| then
      var g := Group(groups[k].marks, groups[k].count + 1, groups[k].names + [st.name]);
      TotalCountIncrement(groups, k, g);
      groups[k := g]
    else
      var g := Group(st.marks, 1, [st.name]);
      TotalCountAppend(groups, g);
      groups + [g]
  }

  /** `aggregatedData`: the reduce over all students, from the empty list. */
  function Aggregated(s: seq<Student>): (r: seq<Group>)
    ensures |r| <= |s|
    ensures s != [] ==> r != []
  {
    if s == [] then [] else AddStudent(Aggregated(s[..|s| - 1]), s[|s| - 1])
  }

  /** `acc.find` as the search it is: the first group with these marks, or |groups| when none. */
  method Find(groups: seq<Group>, marks: int) returns (k: nat)
    ensures k == FindGroup(groups, marks)
  {
    k := 0;
    while k < |groups| && groups[k].marks != marks
      invariant 0 <= k <= |groups|
      invariant forall j :: 0 <= j < k ==> groups[j].marks != marks
    {
      k := k + 1;
    }
  }

  /** The reduce as the loop it is: a growing list of groups, updated in place. */
  method Aggregate(students: seq<Student>) returns (groups: seq<Group>)
    ensures groups == Aggregated(students)
  {
    groups := [];
    var i := 0;
    while i < |students|
      invariant 0 <= i <= |students|
      invariant groups == Aggregated(students[..i])
    {
      var st := students[i];
      var k := Find(groups, st.marks);
      if k < |groups| {
        var entry := groups[k];
        groups := groups[k := Group(entry.marks, entry.count + 1, entry.names + [st.name])];
      } else {
        groups := groups + [Group(st.marks, 1, [st.name])];
      }
      assert students[..i + 1][..i] == students[..i];
      i := i + 1;
    }
    assert students[..i] == students;
  }

  // ---------------------------------------------------------------------------
  // Reference definitions

  /** The marks values that occur in s. */
  function MarksOf(s: seq<Student>): set<int> {
    set st | st in s :: st.marks
  }

  /** The marks values that have a group. */
  function GroupMarks(groups: seq<Group>): set<int> {
    set g | g in groups :: g.marks
  }

  /** The names of the students of s with these marks, in their order in s. */
  function NamesWithMarks(s: seq<Student>, marks: int): seq<string> {
    if s == [] then []
    else NamesWithMarks(s[..|s| - 1], marks) + (if s[|s| - 1].marks == marks then [s[|s| - 1].name] else [])
  }

  /** The position of the first student of s with these marks. */
  function FirstIndex(s: seq<Student>, marks: int): (r: nat)
    requires marks in MarksOf(s)
    ensures r < |s| && s[r].marks == marks
    ensures forall i :: 0 <= i < r ==> s[i].marks != marks
  {
    var p := s[..|s| - 1];
    assert forall st :: st in s ==> st in p || st == s[|s| - 1];
    if marks in MarksOf(p) then
      var r := FirstIndex(p, marks);
      assert s[r] == p[r];
      r
    else
      assert forall i :: 0 <= i < |p| ==> p[i] in p;
      |s| - 1
  }

  /** The sum of the group counts. */
  function TotalCount(groups: seq<Group>): int {
    if groups == [] then 0 else groups[0].count + TotalCount(groups[1..])
  }

  // ---------------------------------------------------------------------------
  // What the aggregation promises

  lemma MarksOfStep(s: seq<Student>)
    requires s != []
    ensures MarksOf(s) == MarksOf(s[..|s| - 1]) + {s[|s| - 1].marks}
  {
    var p := s[..|s| - 1];
    assert s == p + [s[|s| - 1]];
    assert forall st :: st in s <==> st in p || st == s[|s| - 1];
  }

  lemma AddStudentMarks(groups: seq<Group>, st: Student)
    ensures GroupMarks(AddStudent(groups, st)) == GroupMarks(groups) + {st.marks}
    ensures |AddStudent(groups, st)| == if st.marks in GroupMarks(groups) then |groups| else |groups| + 1
    ensures forall i :: 0 <= i < |groups| ==> AddStudent(groups, st)[i].marks == groups[i].marks
    ensures FindGroup(groups, st.marks) < |groups| <==> st.marks in GroupMarks(groups)
  {
    var k := FindGroup(groups, st.marks);
    var r := AddStudent(groups, st);
    if k < |groups| {
      assert groups[k] in groups;
      forall m ensures m in GroupMarks(r) <==> m in GroupMarks(groups) {
        if m in GroupMarks(r) {
          var g :| g in r && g.marks == m;
          var i :| 0 <= i < |r| && r[i] == g;
          assert groups[i] in groups;
        }
        if m in GroupMarks(groups) {
          var g :| g in groups && g.marks == m;
          var i :| 0 <= i < |groups| && groups[i] == g;
          assert r[i] in r;
        }
      }
    } else {
      assert st.marks !in GroupMarks(groups) by {
        forall g | g in groups ensures g.marks != st.marks {
          var i :| 0 <= i < |groups| && groups[i] == g;
        }
      }
      assert forall g :: g in r <==> g in groups || g == Group(st.marks, 1, [st.name]);
    }
  }

  /** The groups are exactly the marks values that occur: one bar per value. */
  lemma {:induction false} GroupsCoverMarks(s: seq<Student>)
    ensures GroupMarks(Aggregated(s)) == MarksOf(s)
  {
    if s != [] {
      GroupsCoverMarks(s[..|s| - 1]);
      MarksOfStep(s);
      AddStudentMarks(Aggregated(s[..|s| - 1]), s[|s| - 1]);
    }
  }

  /** No two groups share a marks value. */
  lemma {:induction false} GroupsAreDistinct(s: seq<Student>)
    ensures forall a, b :: 0 <= a < b < |Aggregated(s)| ==> Aggregated(s)[a].marks != Aggregated(s)[b].marks
  {
    if s != [] {
      var p, x := s[..|s| - 1], s[|s| - 1];
      GroupsAreDistinct(p);
      var before := Aggregated(p);
      assert forall i, j :: 0 <= i < j < |before| ==> before[i].marks != before[j].marks;
      var k := FindGroup(before, x.marks);
      AddStudentMarks(before, x);
      var after := Aggregated(s);
      assert after == AddStudent(before, x);
      forall a, b | 0 <= a < b < |after| ensures after[a].marks != after[b].marks {
        assert after[a].marks == before[a].marks;
        if b == |before| {
          assert k == |before|;
          assert after[b].marks == x.marks;
          assert x.marks !in GroupMarks(before);
          assert before[a] in before;
          assert before[a].marks in GroupMarks(before);
        } else {
          assert b < |before|;
          assert after[b].marks == before[b].marks;
          assert before[a].marks != before[b].marks;
        }
      }
    }
  }

  lemma NamesWithAbsentMarks(s: seq<Student>, marks: int)
    requires marks !in MarksOf(s)
    ensures NamesWithMarks(s, marks) == []
    decreases |s|
  {
    if s != [] {
      MarksOfStep(s);
      NamesWithAbsentMarks(s[..|s| - 1], marks);
    }
  }

  /**
   * Every group lists exactly the names of the students with its marks, in
   * input order, and counts them.
   */
  lemma {:induction false} GroupsListTheirStudents(s: seq<Student>)
    ensures forall k :: 0 <= k < |Aggregated(s)| ==>
      Aggregated(s)[k].names == NamesWithMarks(s, Aggregated(s)[k].marks)
      && Aggregated(s)[k].count == |Aggregated(s)[k].names|
  {
    if s != [] {
      var p, x := s[..|s| - 1], s[|s| - 1];
      GroupsListTheirStudents(p);
      GroupsAreDistinct(p);
      GroupsCoverMarks(p);
      var before := Aggregated(p);
      var after := Aggregated(s);
      var k := FindGroup(before, x.marks);
      AddStudentMarks(before, x);
      if k == |before| {
        assert x.marks !in MarksOf(p);
        NamesWithAbsentMarks(p, x.marks);
        assert after[|before|] == Group(x.marks, 1, [x.name]);
      }
      forall j | 0 <= j < |after|
        ensures after[j].names == NamesWithMarks(s, after[j].marks) && after[j].count == |after[j].names|
      {
        if j < |before| && j != k {
          assert after[j] == before[j];
          assert before[j].marks != x.marks;
        }
      }
    }
  }

  lemma FirstIndexInPrefix(s: seq<Student>, marks: int)
    requires s != [] && marks in MarksOf(s[..|s| - 1])
    ensures marks in MarksOf(s)
    ensures FirstIndex(s, marks) == FirstIndex(s[..|s| - 1], marks)
  {
    MarksOfStep(s);
  }

  lemma FirstIndexOfNewMarks(s: seq<Student>)
    requires s != [] && s[|s| - 1].marks !in MarksOf(s[..|s| - 1])
    ensures s[|s| - 1].marks in MarksOf(s)
    ensures FirstIndex(s, s[|s| - 1].marks) == |s| - 1
  {
    MarksOfStep(s);
  }

  /** Every group's marks occur in the input. */
  lemma GroupMarksOccur(s: seq<Student>)
    ensures forall k :: 0 <= k < |Aggregated(s)| ==> Aggregated(s)[k].marks in MarksOf(s)
  {
    GroupsCoverMarks(s);
    var g := Aggregated(s);
    assert forall k :: 0 <= k < |g| ==> g[k] in g;
  }

  /** The groups appear in the order in which their marks first occur in the input. */
  lemma {:induction false} GroupsInFirstOccurrenceOrder(s: seq<Student>)
    ensures forall k :: 0 <= k < |Aggregated(s)| ==> Aggregated(s)[k].marks in MarksOf(s)
    ensures forall a, b :: 0 <= a < b < |Aggregated(s)| ==>
      FirstIndex(s, Aggregated(s)[a].marks) < FirstIndex(s, Aggregated(s)[b].marks)
  {
    GroupMarksOccur(s);
    if s != [] {
      var p, x := s[..|s| - 1], s[|s| - 1];
      GroupsInFirstOccurrenceOrder(p);
      GroupsCoverMarks(p);
      var before, g := Aggregated(p), Aggregated(s);
      AddStudentMarks(before, x);
      forall a, b | 0 <= a < b < |g| ensures FirstIndex(s, g[a].marks) < FirstIndex(s, g[b].marks) {
        FirstIndexInPrefix(s, before[a].marks);
        if b < |before| {
          FirstIndexInPrefix(s, before[b].marks);
        } else {
          FirstIndexOfNewMarks(s);
        }
      }
    }
  }

  lemma {:induction false} TotalCountIncrement(groups: seq<Group>, k: nat, g: Group)
    requires k < |groups| && g.count == groups[k].count + 1
    ensures TotalCount(groups[k := g]) == TotalCount(groups) + 1
  {
    if k > 0 {
      TotalCountIncrement(groups[1..], k - 1, g);
      assert groups[k := g][1..] == groups[1..][k - 1 := g];
    }
  }

  lemma {:induction false} TotalCountAppend(groups: seq<Group>, g: Group)
    ensures TotalCount(groups + [g]) == TotalCount(groups) + g.count
  {
    if groups != [] {
      TotalCountAppend(groups[1..], g);
      assert (groups + [g])[1..] == groups[1..] + [g];
    }
  }

  /** The group counts add up to the number of students. */
  lemma {:induction false} CountsSumToTotal(s: seq<Student>)
    ensures TotalCount(Aggregated(s)) == |s|
  {
    if s != [] {
      CountsSumToTotal(s[..|s| - 1]);
    }
  }

  // ---------------------------------------------------------------------------
  // Summary figures

  /** `totalStudents`: the card's figure is the height of all the bars together. */
  function TotalStudents(s: seq<Student>): (r: nat)
    ensures r == TotalCount(Aggregated(s))
  {
    CountsSumToTotal(s);
    |s|
  }

  /** The sum of the marks, written from the front. */
  function SumMarks(s: seq<Student>): int {
    if s == [] then 0 else s[0].marks + SumMarks(s[1..])
  }

  /** SumMarks is the `reduce`, which adds the marks one by one from the left onto the running sum. */
  lemma {:induction false} SumMarksAppend(s: seq<Student>, st: Student)
    ensures SumMarks(s + [st]) == SumMarks(s) + st.marks
  {
    if s != [] {
      SumMarksAppend(s[1..], st);
      assert (s + [st])[1..] == s[1..] + [st];
    }
  }

  /** `avgMarks` before rounding: 0 for no students, the mean otherwise. */
  function AverageMarks(s: seq<Student>): (r: real)
    ensures |s| == 0 ==> r == 0.0
    ensures |s| > 0 ==> r * (|s| as real) == SumMarks(s) as real
  {
    if |s| == 0 then 0.0 else (SumMarks(s) as real) / (|s| as real)
  }

  lemma {:induction false} SumMarksBounds(s: seq<Student>, lo: int, hi: int)
    requires forall i :: 0 <= i < |s| ==> lo <= s[i].marks <= hi
    ensures lo * |s| <= SumMarks(s) <= hi * |s|
  {
    if s != [] {
      SumMarksBounds(s[1..], lo, hi);
      assert lo * |s| == lo * |s[1..]| + lo;
      assert hi * |s| == hi * |s[1..]| + hi;
    }
  }

  /** The mean of marks that all lie in [lo, hi] lies in [lo, hi] too. */
  lemma AverageWithinBounds(s: seq<Student>, lo: int, hi: int)
    requires |s| > 0
    requires forall i :: 0 <= i < |s| ==> lo <= s[i].marks <= hi
    ensures lo as real <= AverageMarks(s) <= hi as real
  {
    SumMarksBounds(s, lo, hi);
    ProductAsReal(lo, |s|);
    ProductAsReal(hi, |s|);
    MeanBetween(SumMarks(s) as real, |s| as real, lo as real, hi as real);
  }

  lemma ProductAsReal(a: int, b: int)
    ensures (a * b) as real == (a as real) * (b as real)
  {
  }

  lemma MeanBetween(sum: real, n: real, lo: real, hi: real)
    requires n > 0.0 && lo * n <= sum <= hi * n
    ensures lo <= sum / n <= hi
  {
  }

  /** Two students with 80 and 60 marks average 70. */
  lemma AverageExample(a: string, b: string)
    ensures AverageMarks([Student(a, "", "", 80), Student(b, "", "", 60)]) == 70.0
  {
    var s := [Student(a, "", "", 80), Student(b, "", "", 60)];
    assert s[1..] == [Student(b, "", "", 60)];
    assert s[1..][1..] == [];
    assert SumMarks(s[1..]) == 60 + SumMarks(s[1..][1..]) == 60;
    assert SumMarks(s) == 140;
  }
}
