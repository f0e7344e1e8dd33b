/** The exam timetable of ex7/schedule.cpp: courses taken by a common class conflict, and
    each course in turn gets the smallest time slot no earlier conflicting course holds. */
module Exams {
  /** The number of courses and of classes the program works with. */
  const NCourse := 10
  const NClass := 10

  /** A `Course`: its number and its time slot. */
  datatype Course = Course(id: int, timeSlot: int)

  // ---------------------------------------------------------------------------------------
  // The conflict matrix
  // ---------------------------------------------------------------------------------------

  /** Some class among the first `c` of `courseMap` takes both course `a` and course `b`. */
  ghost predicate SharedBefore(courseMap: array2<bool>, c: int, a: int, b: int)
    reads courseMap
    requires 0 <= a < courseMap.Length1 && 0 <= b < courseMap.Length1
  {
    exists k :: 0 <= k < c && k < courseMap.Length0 && courseMap[k, a] && courseMap[k, b]
  }

  /** Some class takes both course `a` and course `b`. */
  ghost predicate Shared(courseMap: array2<bool>, a: int, b: int)
    reads courseMap
    requires 0 <= a < courseMap.Length1 && 0 <= b < courseMap.Length1
  {
    SharedBefore(courseMap, courseMap.Length0, a, b)
  }

  /** What the building loops have marked once they reach class `c`, course `i` and course
      `j`: the pairs shared by an earlier class, and the pairs of class `c` whose smaller
      course comes before `i`, or is `i` with the larger course before `j`. */
  ghost predicate Marked(courseMap: array2<bool>, c: int, i: int, j: int, a: int, b: int)
    reads courseMap
    requires 0 <= a < courseMap.Length1 && 0 <= b < courseMap.Length1
  {
    var lo, hi := if a < b then a else b, if a < b then b else a;
    a != b &&
    (SharedBefore(courseMap, c, a, b) ||
     (0 <= c < courseMap.Length0 && courseMap[c, a] && courseMap[c, b] && (lo < i || (lo == i && hi < j))))
  }

  /** The matrix holds exactly the marked pairs. */
  ghost predicate MarksAre(conflict: array2<bool>, courseMap: array2<bool>, c: int, i: int, j: int)
    reads conflict, courseMap
    requires conflict.Length0 == conflict.Length1 == courseMap.Length1
  {
    forall a, b :: 0 <= a < conflict.Length0 && 0 <= b < conflict.Length0 ==>
      (conflict[a, b] <==> Marked(courseMap, c, i, j, a, b))
  }

  /** The pairs of class `c` are all marked once `i` passes the last course; that is what
      "shared by one of the first `c + 1` classes" means. */
  lemma NextClass(courseMap: array2<bool>, c: int, a: int, b: int)
    requires 0 <= c < courseMap.Length0
    requires 0 <= a < courseMap.Length1 && 0 <= b < courseMap.Length1
    ensures Marked(courseMap, c, courseMap.Length1, 0, a, b) ==
      Marked(courseMap, c + 1, 0, 0, a, b)
  {
    if courseMap[c, a] && courseMap[c, b] {
      assert SharedBefore(courseMap, c + 1, a, b);
    }
    if SharedBefore(courseMap, c + 1, a, b) && !SharedBefore(courseMap, c, a, b) {
      var k :| 0 <= k < c + 1 && k < courseMap.Length0 && courseMap[k, a] && courseMap[k, b];
      assert k == c;
    }
  }

  /** The conflict loops (ex7/schedule.cpp:110-122): for every class and every pair `i < j`
      of its courses, `conflict[i][j]` and `conflict[j][i]` are set. The result holds
      exactly the pairs of distinct courses some class takes together: it is symmetric and
      no course conflicts with itself. */
  method BuildConflicts(courseMap: array2<bool>) returns (conflict: array2<bool>)
    ensures fresh(conflict) && conflict.Length0 == conflict.Length1 == courseMap.Length1
    ensures forall a, b :: 0 <= a < conflict.Length0 && 0 <= b < conflict.Length0 ==>
      (conflict[a, b] <==> a != b && Shared(courseMap, a, b))
  {
    var n := courseMap.Length1;
    conflict := new bool[n, n]((_, _) => false);
    for c := 0 to courseMap.Length0
      invariant MarksAre(conflict, courseMap, c, 0, 0)
    {
      MarkClass(conflict, courseMap, c);
      forall a, b | 0 <= a < n && 0 <= b < n
        ensures Marked(courseMap, c, n, 0, a, b) == Marked(courseMap, c + 1, 0, 0, a, b)
      {
        NextClass(courseMap, c, a, b);
      }
    }
  }

  /** The middle and inner loops for class `c`. */
  method MarkClass(conflict: array2<bool>, courseMap: array2<bool>, c: nat)
    requires conflict.Length0 == conflict.Length1 == courseMap.Length1
    requires c < courseMap.Length0 && conflict != courseMap
    requires MarksAre(conflict, courseMap, c, 0, 0)
    modifies conflict
    ensures MarksAre(conflict, courseMap, c, courseMap.Length1, 0)
  {
    var n := courseMap.Length1;
    for i := 0 to n
      invariant MarksAre(conflict, courseMap, c, i, 0)
    {
      if !courseMap[c, i] {
        continue;
      }
      assert MarksAre(conflict, courseMap, c, i, i + 1);
      for j := i + 1 to n
        invariant MarksAre(conflict, courseMap, c, i, j)
      {
        if !courseMap[c, j] {
          continue;
        }
        conflict[i, j] := true;
        conflict[j, i] := true;
      }
    }
  }

  // ---------------------------------------------------------------------------------------
  // The greedy assignment
  // ---------------------------------------------------------------------------------------

  /** The time slots of some courses, in order. */
  function Slots(cs: seq<Course>): (r: seq<int>)
    ensures |r| == |cs| && forall k :: 0 <= k < |cs| ==> r[k] == cs[k].timeSlot
  {
    seq(|cs|, k requires 0 <= k < |cs| => cs[k].timeSlot)
  }

  /** Slot `t` is open to course `i`: no earlier course conflicting with it holds `t`. */
  ghost predicate Free(conflict: array2<bool>, slots: seq<int>, i: int, t: int)
    reads conflict
    requires 0 <= i < conflict.Length0 && i <= |slots| && i <= conflict.Length1
  {
    forall j :: 0 <= j < i ==> !(conflict[i, j] && slots[j] == t)
  }

  /** Course `i` holds the smallest slot open to it. */
  ghost predicate FirstFree(conflict: array2<bool>, slots: seq<int>, i: int)
    reads conflict
    requires 0 <= i < |slots| && i < conflict.Length0 && i <= conflict.Length1
  {
    0 <= slots[i] && Free(conflict, slots, i, slots[i]) &&
    forall t :: 0 <= t < slots[i] ==> !Free(conflict, slots, i, t)
  }

  /** Every course holds the smallest slot open to it. */
  ghost predicate Greedy(conflict: array2<bool>, slots: seq<int>)
    reads conflict
    requires |slots| <= conflict.Length0 && |slots| <= conflict.Length1
  {
    forall i :: 0 <= i < |slots| ==> FirstFree(conflict, slots, i)
  }

  /** The inner loop over earlier courses (ex7/schedule.cpp:129-134): whether slot `t` is
      open to course `i`. */
  method CanTake(conflict: array2<bool>, courses: array<Course>, i: nat, t: int) returns (can: bool)
    requires i < conflict.Length0 && i <= conflict.Length1 && i <= courses.Length
    ensures can <==> Free(conflict, Slots(courses[..i]), i, t)
  {
    ghost var slots := Slots(courses[..i]);
    can := true;
    for j := 0 to i
      invariant can <==> forall k :: 0 <= k < j ==> !(conflict[i, k] && slots[k] == t)
    {
      if conflict[i, j] && courses[j].timeSlot == t {
        can := false;
        break;
      }
    }
  }

  /** The slots of the first `i` courses number at most `i`. */
  lemma {:induction false} ImageCard(slots: seq<int>, i: nat)
    requires i <= |slots|
    ensures |set j | 0 <= j < i :: slots[j]| <= i
  {
    if i > 0 {
      ImageCard(slots, i - 1);
      assert (set j | 0 <= j < i :: slots[j]) == (set j | 0 <= j < i - 1 :: slots[j]) + {slots[i - 1]};
    }
  }

  /** A set holding every one of `0..m-1` has at least `m` elements. */
  lemma {:induction false} CoverCard(s: set<int>, m: nat)
    requires forall t :: 0 <= t < m ==> t in s
    ensures |s| >= m
  {
    if m > 0 {
      CoverCard(s - {m - 1}, m - 1);
    }
  }

  /** Pigeonhole: the `i` earlier courses hold at most `i` slots, so one of `0..i` is open
      to course `i`. */
  lemma FreeSlotExists(conflict: array2<bool>, slots: seq<int>, i: nat)
    requires i < conflict.Length0 && i <= conflict.Length1 && i <= |slots|
    ensures exists t :: 0 <= t <= i && Free(conflict, slots, i, t)
  {
    var held := set j | 0 <= j < i :: slots[j];
    ImageCard(slots, i);
    if forall t :: 0 <= t <= i ==> t in held {
      CoverCard(held, i + 1);
      assert false;
    }
    var t :| 0 <= t <= i && t !in held;
    assert Free(conflict, slots, i, t);
  }

  /** The slot loop (ex7/schedule.cpp:127-139): the first `t` that `CanTake` accepts. It is
      found before `t` passes `i`, so well inside the `n_course` bound of the loop. */
  method FirstOpenSlot(conflict: array2<bool>, courses: array<Course>, i: nat) returns (t: nat)
    requires i < conflict.Length0 && i < conflict.Length1 && i <= courses.Length
    ensures t <= i && Free(conflict, Slots(courses[..i]), i, t)
    ensures forall t' :: 0 <= t' < t ==> !Free(conflict, Slots(courses[..i]), i, t')
  {
    ghost var slots := Slots(courses[..i]);
    FreeSlotExists(conflict, slots, i);
    ghost var open :| 0 <= open <= i && Free(conflict, slots, i, open);
    t := 0;
    var can := CanTake(conflict, courses, i, t);
    while t < conflict.Length1 && !can
      invariant t <= open && (can <==> Free(conflict, slots, i, t))
      invariant forall t' :: 0 <= t' < t ==> !Free(conflict, slots, i, t')
      decreases open - t
    {
      t := t + 1;
      can := CanTake(conflict, courses, i, t);
    }
  }

  /** A course added with the smallest open slot keeps the assignment greedy. */
  lemma GreedySnoc(conflict: array2<bool>, slots: seq<int>, t: int)
    requires |slots| < conflict.Length0 && |slots| < conflict.Length1
    requires Greedy(conflict, slots)
    requires 0 <= t && Free(conflict, slots, |slots|, t)
    requires forall t' :: 0 <= t' < t ==> !Free(conflict, slots, |slots|, t')
    ensures Greedy(conflict, slots + [t])
  {
    var s := slots + [t];
    forall i | 0 <= i < |s|
      ensures FirstFree(conflict, s, i)
    {
      forall u
        ensures Free(conflict, s, i, u) == Free(conflict, slots, i, u)
      {
        assert forall j :: 0 <= j < i ==> s[j] == slots[j];
      }
      if i < |slots| {
        assert FirstFree(conflict, slots, i) && s[i] == slots[i];
      }
    }
  }

  /** The assignment loop (ex7/schedule.cpp:125-140): course `i` gets number `i` and the
      smallest slot no earlier conflicting course holds. */
  method AssignSlots(conflict: array2<bool>, courses: array<Course>)
    requires conflict.Length0 == conflict.Length1 == courses.Length
    modifies courses
    ensures forall i :: 0 <= i < courses.Length ==> courses[i].id == i
    ensures Greedy(conflict, Slots(courses[..]))
  {
    for i := 0 to courses.Length
      invariant forall k :: 0 <= k < i ==> courses[k].id == k
      invariant Greedy(conflict, Slots(courses[..i]))
    {
      ghost var prefix := courses[..i];
      courses[i] := courses[i].(id := i);
      assert courses[..i] == prefix;
      var t := FirstOpenSlot(conflict, courses, i);
      ghost var before := Slots(prefix);
      courses[i] := courses[i].(timeSlot := t);
      assert courses[..i + 1] == prefix + [courses[i]];
      GreedySnoc(conflict, before, t);
      assert Slots(courses[..i + 1]) == before + [t];
    }
    assert courses[..] == courses[..courses.Length];
  }

  /** `schedule_exams()` (ex7/schedule.cpp:109-141): the conflict matrix, then one course
      record per course holding its number and its greedy slot. The records come back in a
      new array: `resize` may keep earlier records, but every field of each is overwritten. */
  method ScheduleExams(courseMap: array2<bool>) returns (conflict: array2<bool>, courses: array<Course>)
    requires courseMap.Length0 == NClass && courseMap.Length1 == NCourse
    ensures conflict.Length0 == conflict.Length1 == courses.Length == courseMap.Length1
    ensures forall a, b :: 0 <= a < conflict.Length0 && 0 <= b < conflict.Length0 ==>
      (conflict[a, b] <==> a != b && Shared(courseMap, a, b))
    ensures forall i :: 0 <= i < courses.Length ==> courses[i].id == i
    ensures Greedy(conflict, Slots(courses[..]))
  {
    conflict := BuildConflicts(courseMap);
    courses := new Course[courseMap.Length1]((_) => Course(0, 0));
    AssignSlots(conflict, courses);
  }

  // ---------------------------------------------------------------------------------------
  // What the timetable guarantees
  // ---------------------------------------------------------------------------------------

  /** Course `i` of a greedy assignment holds a slot no later than `i`: below `n_course`. */
  lemma SlotBound(conflict: array2<bool>, slots: seq<int>, i: nat)
    requires |slots| <= conflict.Length0 && |slots| <= conflict.Length1
    requires Greedy(conflict, slots) && i < |slots|
    ensures 0 <= slots[i] <= i
  {
    assert FirstFree(conflict, slots, i);
    FreeSlotExists(conflict, slots, i);
    var t :| 0 <= t <= i && Free(conflict, slots, i, t);
  }

  /** Every course of a greedy assignment holds a slot below the number of courses, so
      the `n_course` bound of the slot loop is never reached. */
  lemma SlotsBelowCount(conflict: array2<bool>, slots: seq<int>)
    requires |slots| <= conflict.Length0 && |slots| <= conflict.Length1
    requires Greedy(conflict, slots)
    ensures forall i :: 0 <= i < |slots| ==> 0 <= slots[i] < |slots|
  {
    forall i | 0 <= i < |slots|
      ensures 0 <= slots[i] < |slots|
    {
      SlotBound(conflict, slots, i);
    }
  }

  /** Two conflicting courses never share a slot: the later one skipped every slot the
      earlier one holds. */
  lemma NoSharedSlot(conflict: array2<bool>, slots: seq<int>, a: nat, b: nat)
    requires |slots| <= conflict.Length0 && |slots| <= conflict.Length1
    requires Greedy(conflict, slots) && a < |slots| && b < |slots|
    requires conflict.Length0 == conflict.Length1
    requires forall x, y :: 0 <= x < conflict.Length0 && 0 <= y < conflict.Length0 ==>
      conflict[x, y] == conflict[y, x]
    requires a != b && conflict[a, b]
    ensures slots[a] != slots[b]
  {
    if a < b {
      assert FirstFree(conflict, slots, b);
    } else {
      assert FirstFree(conflict, slots, a);
    }
  }

  /** Some class takes courses `i < j` scheduled in the same slot: the warning the check in
      `show_exam_schedule` prints. */
  ghost predicate Clash(courseMap: array2<bool>, slots: seq<int>)
    reads courseMap
    requires |slots| == courseMap.Length1
  {
    exists c, i, j :: 0 <= c < courseMap.Length0 && 0 <= i < j < |slots| &&
      courseMap[c, i] && courseMap[c, j] && slots[i] == slots[j]
  }

  /** The check loops of `show_exam_schedule` (ex7/schedule.cpp:211-225) without the
      printing: whether some class has two of its courses in one slot. */
  method CheckSchedule(courseMap: array2<bool>, courses: array<Course>) returns (hasConflict: bool)
    requires courses.Length == courseMap.Length1
    ensures hasConflict <==> Clash(courseMap, Slots(courses[..]))
  {
    hasConflict := false;
    var n := courseMap.Length1;
    for c := 0 to courseMap.Length0
      invariant hasConflict <==> exists c' :: 0 <= c' < c && SameSlotIn(courseMap, courses, c', n)
    {
      var found := ClassClash(courseMap, courses, c);
      hasConflict := hasConflict || found;
    }
    ghost var slots := Slots(courses[..]);
    if hasConflict {
      ghost var c :| 0 <= c < courseMap.Length0 && SameSlotIn(courseMap, courses, c, n);
      ghost var i :| 0 <= i < n && SameSlotWith(courseMap, courses, c, i, n);
      ghost var j :| i < j < n && courseMap[c, j] && courses[i].timeSlot == courses[j].timeSlot;
      assert courseMap[c, i] && courseMap[c, j] && slots[i] == slots[j];
    }
    if Clash(courseMap, slots) {
      ghost var c, i, j :| 0 <= c < courseMap.Length0 && 0 <= i < j < n &&
        courseMap[c, i] && courseMap[c, j] && slots[i] == slots[j];
      assert SameSlotWith(courseMap, courses, c, i, n);
      assert SameSlotIn(courseMap, courses, c, n);
    }
  }

  /** The check for one class `c`. */
  method ClassClash(courseMap: array2<bool>, courses: array<Course>, c: nat) returns (found: bool)
    requires courses.Length == courseMap.Length1 && c < courseMap.Length0
    ensures found <==> SameSlotIn(courseMap, courses, c, courses.Length)
  {
    var n := courseMap.Length1;
    found := false;
    for i := 0 to n
      invariant found <==> SameSlotIn(courseMap, courses, c, i)
    {
      if !courseMap[c, i] {
        continue;
      }
      for j := i + 1 to n
        invariant found <==> SameSlotIn(courseMap, courses, c, i) || SameSlotWith(courseMap, courses, c, i, j)
      {
        if courseMap[c, j] && courses[i].timeSlot == courses[j].timeSlot {
          found := true;
        }
      }
    }
  }

  /** Class `c` takes course `i` and a course in `i+1..j-1` in the same slot. */
  ghost predicate SameSlotWith(courseMap: array2<bool>, courses: array<Course>, c: nat, i: nat, j: int)
    reads courseMap, courses
    requires courses.Length == courseMap.Length1 && c < courseMap.Length0 && i < courses.Length
  {
    courseMap[c, i] &&
    exists j' :: i < j' < j && j' < courses.Length && courseMap[c, j'] && courses[i].timeSlot == courses[j'].timeSlot
  }

  /** Class `c` takes two courses in the same slot, the smaller of them below `i`. */
  ghost predicate SameSlotIn(courseMap: array2<bool>, courses: array<Course>, c: nat, i: int)
    reads courseMap, courses
    requires courses.Length == courseMap.Length1 && c < courseMap.Length0
  {
    exists i' :: 0 <= i' < i && i' < courses.Length && SameSlotWith(courseMap, courses, c, i', courses.Length)
  }

  /** The timetable `schedule_exams` builds passes the check: no class has two courses in
      one slot. */
  lemma ScheduleHasNoClash(courseMap: array2<bool>, conflict: array2<bool>, slots: seq<int>)
    requires conflict.Length0 == conflict.Length1 == |slots| == courseMap.Length1
    requires forall a, b :: 0 <= a < conflict.Length0 && 0 <= b < conflict.Length0 ==>
      (conflict[a, b] <==> a != b && Shared(courseMap, a, b))
    requires Greedy(conflict, slots)
    ensures !Clash(courseMap, slots)
  {
    forall c, i, j | 0 <= c < courseMap.Length0 && 0 <= i < j < |slots| && courseMap[c, i] && courseMap[c, j]
      ensures slots[i] != slots[j]
    {
      assert SharedBefore(courseMap, courseMap.Length0, i, j);
      NoSharedSlot(conflict, slots, i, j);
    }
  }
}
