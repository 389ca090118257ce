/**
  The comparator the ready queue is sorted with. The source decides whether
  two due dates tie by comparing their TEXT, and only then subtracts the
  parsed instants; two spellings of one instant therefore tie on the date
  step and never reach the hours step. The rest of the model uses the
  intended order, `Tasks.KeyLess`, which compares the instants.
*/
module Comparator {
  import opened Tasks

  /** What the comparator sees of a queued task: its due date as written,
      the instant that text parses to, and its estimated hours. */
  datatype Entry = Entry(dueText: string, due: int, hours: int)

  /** The comparator as written: negative puts `a` first. */
  function SourceCompare(a: Entry, b: Entry): int
  {
    if a.dueText != b.dueText then a.due - b.due else a.hours - b.hours
  }

  /** The comparator as intended: the date step looks at the instants. */
  function Compare(a: Entry, b: Entry): (r: int)
    ensures r < 0 <==> a.due < b.due || (a.due == b.due && a.hours < b.hours)
    ensures r == 0 <==> a.due == b.due && a.hours == b.hours
  {
    if a.due != b.due then a.due - b.due else a.hours - b.hours
  }

  /** The task record the rest of the model sorts. */
  function AsTask(e: Entry, title: string): (t: Task)
    ensures t.due == e.due && t.hours == e.hours && t.title == title && t.deps == []
  {
    Task(title, e.hours, e.due, [])
  }

  /** The intended comparator is the model's order on tasks. */
  lemma CompareIsKeyLess(a: Entry, b: Entry, ta: string, tb: string)
    ensures Compare(a, b) < 0 <==> KeyLess(AsTask(a, ta), AsTask(b, tb))
  {
  }

  /** The intended comparator is a consistent comparator: antisymmetric in
      sign and transitive, as the array sort requires. */
  lemma CompareConsistent(a: Entry, b: Entry, c: Entry)
    ensures Compare(a, b) < 0 <==> Compare(b, a) > 0
    ensures Compare(a, b) == 0 <==> Compare(b, a) == 0
    ensures Compare(a, b) <= 0 && Compare(b, c) <= 0 ==> Compare(a, c) <= 0
    ensures Compare(a, b) == 0 && Compare(b, c) == 0 ==> Compare(a, c) == 0
  {
  }

  /** Where the text of equal instants is always the same (one spelling per
      date), the source's comparator is the intended one. */
  lemma SameSpellingAgrees(a: Entry, b: Entry)
    requires a.dueText == b.dueText <==> a.due == b.due
    ensures SourceCompare(a, b) == Compare(a, b)
  {
  }

  /** Two spellings of midnight, 25 October 2025 UTC, as milliseconds. */
  const Day := "2025-10-25"
  const DayIso := "2025-10-25T00:00:00Z"
  const Midnight := 1761350400000

  /** As written, the comparator is not consistent: `a` ties with `b` and
      `b` with `c`, yet `a` sorts after `c`; the order the sort then
      produces is left to the engine. */
  lemma SourceCompareInconsistent()
    ensures
      var a := Entry(Day, Midnight, 5);
      var b := Entry(DayIso, Midnight, 3);
      var c := Entry(Day, Midnight, 4);
      && SourceCompare(a, b) == 0 && SourceCompare(b, c) == 0
      && SourceCompare(a, c) > 0
      && Compare(b, c) < 0 && Compare(c, a) < 0
  {
    assert Day != DayIso by {
      assert |Day| != |DayIso|;
    }
  }
}
