/**
 * The console task registry: task records of two variants with a mutable
 * completion status, and a manager that owns an ordered list of them.
 * Everything the Kotlin program prints is returned as strings instead.
 */
module ConsoleTasks {
  import opened Decimal

  /** The completion status of a record. */
  datatype TaskStatus = NotDone | Done

  /** The display text carried by each status constant. */
  function StatusText(s: TaskStatus): string
  {
    match s
    case NotDone => "Not done"
    case Done => "Done"
  }

  /** Which class a record was built from: a plain `Task` or an `UrgentTask`. */
  datatype Variant = Plain | Urgent(priorityLevel: Int32)

  /** The value of a record at one moment: its fields and its variant. */
  datatype Record = Record(title: string, description: string, variant: Variant, status: TaskStatus)

  const StatusLabel := " | Status: "

  /** The part of a display line before the status label. */
  function Heading(r: Record): string
  {
    match r.variant
    case Plain => " " + r.title + " - " + r.description
    case Urgent(p) => "URGENT [P" + IntToDecimal(p) + "]: " + r.title
  }

  /** The line `displayInfo` prints for a record, without its newline. */
  function DisplayLine(r: Record): string
  {
    Heading(r) + StatusLabel + StatusText(r.status)
  }

  /** What `markDone` does to a record's value. */
  function MarkedDone(r: Record): (r': Record)
    ensures r'.status == Done
    ensures r'.title == r.title && r'.description == r.description && r'.variant == r.variant
  {
    r.(status := Done)
  }

  /** Marking done twice is the same as marking done once, for both variants. */
  lemma MarkDoneIdempotent(r: Record)
    ensures MarkedDone(MarkedDone(r)) == MarkedDone(r)
    ensures r.status == Done ==> MarkedDone(r) == r
  {
  }

  /** The message `markDone` prints. */
  function MarkDoneMessage(title: string): (m: string)
    ensures |m| == |title| + 23
    ensures m[6..6 + |title|] == title
  {
    "Task \"" + title + "\" marked as done!"
  }

  const AddedMessage := "Task added successfully."
  const RemovedMessage := "Task removed."
  const InvalidNumberMessage := "Invalid task number."
  const EmptyListMessage := "No tasks found."

  /** A task record. Title, description and variant never change; status does. */
  class Task {
    const title: string
    const description: string
    const variant: Variant
    var status: TaskStatus

    /** `Task(title, description, status = NOT_DONE)`. */
    constructor (title: string, description: string, status: TaskStatus := NotDone)
      ensures Snapshot() == Record(title, description, Plain, status)
    {
      this.title := title;
      this.description := description;
      this.variant := Plain;
      this.status := status;
    }

    /** `UrgentTask(title, description, priorityLevel)`, which always starts not done. */
    constructor UrgentTask(title: string, description: string, priorityLevel: Int32)
      ensures Snapshot() == Record(title, description, Urgent(priorityLevel), NotDone)
    {
      this.title := title;
      this.description := description;
      this.variant := Urgent(priorityLevel);
      this.status := NotDone;
    }

    function GetTitle(): string
    {
      title
    }

    function GetStatus(): TaskStatus
      reads this
    {
      status
    }

    function Snapshot(): Record
      reads this
    {
      Record(GetTitle(), description, variant, GetStatus())
    }

    /** The line this record displays, dispatched on its variant. */
    function DisplayInfo(): (line: string)
      reads this
      ensures variant.Plain? ==> " " <= line
      ensures variant.Urgent? ==> "URGENT [P" <= line
    {
      DisplayLine(Snapshot())
    }

    /** Sets the status to done and returns the confirmation it prints. */
    method MarkDone() returns (message: string)
      modifies this
      ensures Snapshot() == MarkedDone(old(Snapshot()))
      ensures message == MarkDoneMessage(title)
    {
      status := Done;
      message := MarkDoneMessage(title);
    }
  }

  /** The values of a list of records, position by position. */
  function Snapshots(ts: seq<Task>): (rs: seq<Record>)
    reads ts
    ensures |rs| == |ts|
    ensures forall i :: 0 <= i < |ts| ==> rs[i] == ts[i].Snapshot()
  {
    if ts == [] then [] else [ts[0].Snapshot()] + Snapshots(ts[1..])
  }

  /** `index in 1..size`: the guard of markTaskDone and removeTask. */
  predicate IndexInRange(index: int, size: nat)
  {
    1 <= index <= size
  }

  /** Item `index` (from 0) of the listing: its 1-based number, a dot, a space, then the record's line. */
  function ItemLine(index: nat, r: Record): string
  {
    IntToDecimal(index + 1) + ". " + DisplayLine(r)
  }

  /** The lines a `forEachIndexed` pass produces when element `k` prints `f(k, xs[k])`. */
  function MapIndexed<T>(xs: seq<T>, f: (nat, T) -> string): (ys: seq<string>)
    ensures |ys| == |xs|
    ensures forall k :: 0 <= k < |xs| ==> ys[k] == f(k, xs[k])
  {
    seq(|xs|, k requires 0 <= k < |xs| => f(k, xs[k]))
  }

  const ListHeader := ["", " Task List:"]

  /** Every line `listTasks` prints for a list of record values. */
  function Listing(view: seq<Record>): (lines: seq<string>)
    ensures |view| == 0 ==> lines == [EmptyListMessage]
    ensures |view| > 0 ==> |lines| == |view| + 2 && lines[..2] == ListHeader
  {
    if |view| == 0 then [EmptyListMessage] else ListHeader + MapIndexed(view, ItemLine)
  }

  /** Visits the elements in order, passing each one's 0-based index, and collects what is printed. */
  method ForEachIndexed<T>(xs: seq<T>, f: (nat, T) -> string) returns (ys: seq<string>)
    ensures ys == MapIndexed(xs, f)
  {
    ys := [];
    var i := 0;
    while i < |xs|
      invariant 0 <= i <= |xs|
      invariant |ys| == i
      invariant forall k :: 0 <= k < i ==> ys[k] == f(k, xs[k])
    {
      ys := ys + [f(i, xs[i])];
      i := i + 1;
    }
  }

  /** The set of titles of a list of records, whatever their variants. */
  function Titles(view: seq<Record>): set<string>
  {
    set r | r in view :: r.title
  }

  /** The titles of a list of records, position by position. */
  function TitleList(view: seq<Record>): (ts: seq<string>)
    ensures |ts| == |view|
    ensures forall i :: 0 <= i < |view| ==> ts[i] == view[i].title
  {
    seq(|view|, i requires 0 <= i < |view| => view[i].title)
  }

  predicate NoDuplicates<T(==)>(s: seq<T>)
  {
    forall i, j :: 0 <= i < j < |s| ==> s[i] != s[j]
  }

  function ToSet<T(==)>(s: seq<T>): set<T>
  {
    set x | x in s
  }

  /**
   * A sequence has at most as many distinct elements as positions, and
   * exactly as many when no element repeats.
   */
  lemma {:induction false} ToSetSize<T>(s: seq<T>)
    ensures |ToSet(s)| <= |s|
    ensures |ToSet(s)| == |s| <==> NoDuplicates(s)
  {
    if |s| > 0 {
      var tail := s[1..];
      ToSetSize(tail);
      assert ToSet(s) == {s[0]} + ToSet(tail) by {
        forall x | x in ToSet(s) ensures x in {s[0]} + ToSet(tail) {
          var i :| 0 <= i < |s| && s[i] == x;
          if i > 0 { assert tail[i - 1] == x; }
        }
      }
      if s[0] in tail {
        var i :| 0 <= i < |tail| && tail[i] == s[0];
        assert s[i + 1] == s[0];
        assert ToSet(s) == ToSet(tail);
        assert !NoDuplicates(s);
      } else {
        assert NoDuplicates(s) <==> NoDuplicates(tail) by {
          if NoDuplicates(tail) {
            forall i, j | 0 <= i < j < |s| ensures s[i] != s[j] {
              if i == 0 {
                assert s[j] == tail[j - 1];
              } else {
                assert s[i] == tail[i - 1] && s[j] == tail[j - 1];
              }
            }
          }
          if NoDuplicates(s) {
            forall i, j | 0 <= i < j < |tail| ensures tail[i] != tail[j] {
              assert tail[i] == s[i + 1] && tail[j] == s[j + 1];
            }
          }
        }
      }
    }
  }

  /**
   * The set of titles is never larger than the list, and it is as large
   * exactly when no two records share a title.
   */
  lemma TitlesSize(view: seq<Record>)
    ensures |Titles(view)| <= |view|
    ensures |Titles(view)| == |view| <==> NoDuplicates(TitleList(view))
  {
    var ts := TitleList(view);
    assert Titles(view) == ToSet(ts) by {
      forall x | x in ToSet(ts) ensures x in Titles(view) {
        var i :| 0 <= i < |ts| && ts[i] == x;
        assert view[i] in view;
      }
      forall x | x in Titles(view) ensures x in ToSet(ts) {
        var r :| r in view && r.title == x;
        var i :| 0 <= i < |view| && view[i] == r;
        assert ts[i] == x;
      }
    }
    ToSetSize(ts);
  }

  /** Two records sharing a title contribute a single element. */
  lemma SharedTitleCollapses(view: seq<Record>, i: nat, j: nat)
    requires i < j < |view| && view[i].title == view[j].title
    ensures |Titles(view)| < |view|
  {
    TitlesSize(view);
    assert TitleList(view)[i] == TitleList(view)[j];
  }

  /** Two records sharing a title, of either variant, give a one-element set. */
  lemma SharedTitlePair(a: Record, b: Record)
    requires a.title == b.title
    ensures Titles([a, b]) == {a.title}
  {
    assert a in [a, b];
  }

  /**
   * The two display formats: a plain record shows a space, its title, a
   * dash and its description; an urgent record shows its priority and its
   * title; both end with the status label and the status text.
   */
  lemma DisplayLayout(r: Record)
    ensures r.variant.Plain? ==>
      DisplayLine(r) == " " + r.title + " - " + r.description + " | Status: " + StatusText(r.status)
    ensures r.variant.Urgent? ==>
      DisplayLine(r) == "URGENT [P" + IntToDecimal(r.variant.priorityLevel) + "]: " + r.title
                        + " | Status: " + StatusText(r.status)
    ensures StatusText(NotDone) == "Not done" && StatusText(Done) == "Done"
  {
  }

  /** A plain line and an urgent line are never the same line. */
  lemma DisplayVariantsDiffer(a: Record, b: Record)
    requires a.variant.Plain? && b.variant.Urgent?
    ensures DisplayLine(a) != DisplayLine(b)
  {
    assert DisplayLine(a)[0] == ' ';
    assert DisplayLine(b)[0] == 'U';
  }

  /** A sample urgent line: the priority is written without leading zeros. */
  lemma UrgentSampleLine()
    ensures DisplayLine(Record("Fix server", "prod down", Urgent(5), NotDone))
            == "URGENT [P5]: Fix server | Status: Not done"
  {
    var r := Record("Fix server", "prod down", Urgent(5), NotDone);
    assert IntToDecimal(5) == "5";
    var h := "URGENT [P5]: Fix server";
    assert Heading(r) == h by {
      assert "URGENT [P" + "5" + "]: " + "Fix server" == h;
    }
    assert h + StatusLabel + StatusText(NotDone) == "URGENT [P5]: Fix server | Status: Not done";
  }

  /** A sample plain line: it starts with a space. */
  lemma PlainSampleLine()
    ensures DisplayLine(Record("Buy milk", "2% milk", Plain, Done))
            == " Buy milk - 2% milk | Status: Done"
  {
  }

  /** A record's line shows its status: changing only the status changes the line. */
  lemma DisplayRevealsStatus(r: Record, s: TaskStatus)
    ensures DisplayLine(r) == DisplayLine(r.(status := s)) <==> r.status == s
  {
    if r.status != s {
      assert |StatusText(r.status)| != |StatusText(s)|;
    }
  }

  /**
   * In two strings built the same way around a middle part, equal strings
   * mean equal middle parts.
   */
  lemma MiddleDetermined(a: string, x: string, y: string, b: string, t: string, l: string, u: string)
    requires a + x + b + t + l + u == a + y + b + t + l + u
    ensures x == y
  {
    var lhs, rhs := a + x + b + t + l + u, a + y + b + t + l + u;
    assert |x| == |y|;
    forall i | 0 <= i < |x| ensures x[i] == y[i] {
      assert lhs[|a| + i] == x[i];
      assert rhs[|a| + i] == y[i];
    }
  }

  /** An urgent line shows its priority: two priorities never render the same line. */
  lemma UrgentLineRevealsPriority(r: Record, p: Int32, q: Int32)
    ensures DisplayLine(r.(variant := Urgent(p))) == DisplayLine(r.(variant := Urgent(q))) <==> p == q
  {
    if DisplayLine(r.(variant := Urgent(p))) == DisplayLine(r.(variant := Urgent(q))) {
      MiddleDetermined("URGENT [P", IntToDecimal(p), IntToDecimal(q), "]: ", r.title,
                       StatusLabel, StatusText(r.status));
      IntToDecimalInjective(p, q);
    }
  }

  /** Line `k + 2` of a non-empty listing is record `k`'s display line, numbered `k + 1`. */
  lemma ListingItem(view: seq<Record>, k: nat)
    requires k < |view|
    ensures Listing(view)[k + 2] == IntToDecimal(k + 1) + ". " + DisplayLine(view[k])
  {
    assert Listing(view)[k + 2] == MapIndexed(view, ItemLine)[k];
  }

  /** What `removeAt(k)` leaves of a list. */
  function RemoveAt<T>(s: seq<T>, k: nat): seq<T>
    requires k < |s|
  {
    s[..k] + s[k + 1..]
  }

  /**
   * Removing position `k` shortens the list by one, keeps the earlier
   * elements in place and moves each later one down exactly one position;
   * in a list without repeats the removed element is gone and no repeat
   * appears.
   */
  lemma RemoveAtShifts<T>(s: seq<T>, k: nat)
    requires k < |s|
    ensures |RemoveAt(s, k)| == |s| - 1
    ensures forall j :: 0 <= j < k ==> RemoveAt(s, k)[j] == s[j]
    ensures forall j :: k <= j < |s| - 1 ==> RemoveAt(s, k)[j] == s[j + 1]
    ensures NoDuplicates(s) ==> s[k] !in RemoveAt(s, k) && NoDuplicates(RemoveAt(s, k))
  {
    var r := RemoveAt(s, k);
    if NoDuplicates(s) {
      forall j | 0 <= j < |r| ensures r[j] != s[k] {
        if j < k { assert r[j] == s[j]; } else { assert r[j] == s[j + 1]; }
      }
      forall i, j | 0 <= i < j < |r| ensures r[i] != r[j] {
        var i', j' := if i < k then i else i + 1, if j < k then j else j + 1;
        assert r[i] == s[i'] && r[j] == s[j'];
      }
    }
  }

  /** The registry: an ordered list of records that it changes in place. */
  class TaskManager {
    var tasks: seq<Task>

    constructor ()
      ensures tasks == []
    {
      tasks := [];
    }

    /** The values of the records, in list order. */
    ghost function View(): seq<Record>
      reads this, tasks
    {
      Snapshots(tasks)
    }

    /** No record object is stored at two positions. */
    ghost predicate Distinct()
      reads this
    {
      NoDuplicates(tasks)
    }

    /** Appends a record at the end; no deduplication. */
    method AddTask(task: Task) returns (message: string)
      modifies this
      ensures tasks == old(tasks) + [task]
      ensures View() == old(View()) + [task.Snapshot()]
      ensures old(Distinct()) && task !in old(tasks) ==> Distinct()
      ensures message == AddedMessage
    {
      tasks := tasks + [task];
      message := AddedMessage;
    }

    /** The lines listTasks prints, numbering the records from 1. */
    method ListTasks() returns (lines: seq<string>)
      ensures lines == Listing(View())
    {
      if |tasks| == 0 {
        lines := [EmptyListMessage];
      } else {
        var items := ForEachIndexed(Snapshots(tasks), ItemLine);
        lines := ListHeader + items;
      }
    }

    /**
     * Marks the record at 1-based `index` done. Every position holding that
     * same record object shows it done; every other record keeps its status.
     * An index outside `1..size` changes nothing and reports an error.
     */
    method MarkTaskDone(index: int) returns (message: string)
      modifies tasks
      ensures tasks == old(tasks)
      ensures IndexInRange(index, |tasks|) ==>
        message == MarkDoneMessage(tasks[index - 1].title) &&
        forall j :: 0 <= j < |tasks| ==>
          View()[j] == if tasks[j] == tasks[index - 1] then MarkedDone(old(View())[j]) else old(View())[j]
      ensures IndexInRange(index, |tasks|) && Distinct() ==>
        View() == old(View())[index - 1 := MarkedDone(old(View())[index - 1])]
      ensures !IndexInRange(index, |tasks|) ==>
        message == InvalidNumberMessage && View() == old(View())
    {
      if 1 <= index <= |tasks| {
        message := tasks[index - 1].MarkDone();
      } else {
        message := InvalidNumberMessage;
      }
    }

    /**
     * Removes the record at 1-based `index`; later records move down one
     * position. An index outside `1..size` changes nothing and reports an error.
     */
    method RemoveTask(index: int) returns (message: string)
      modifies this
      ensures IndexInRange(index, |old(tasks)|) ==>
        tasks == RemoveAt(old(tasks), index - 1) &&
        View() == RemoveAt(old(View()), index - 1) &&
        message == RemovedMessage
      ensures !IndexInRange(index, |old(tasks)|) ==>
        tasks == old(tasks) && message == InvalidNumberMessage
    {
      if 1 <= index <= |tasks| {
        message := RemovedMessage;
        tasks := tasks[..index - 1] + tasks[index..];
      } else {
        message := InvalidNumberMessage;
      }
    }

    /** Collects the distinct titles of all records. */
    method UniqueTitles() returns (titles: set<string>)
      ensures titles == Titles(View())
    {
      titles := {};
      var i := 0;
      while i < |tasks|
        invariant 0 <= i <= |tasks|
        invariant titles == Titles(View()[..i])
      {
        assert View()[..i + 1] == View()[..i] + [View()[i]];
        titles := titles + {tasks[i].GetTitle()};
        i := i + 1;
      }
      assert View()[..i] == View();
    }
  }

  /** The size the menu uses as the upper bound of its number prompts. */
  function ManagerSize(m: TaskManager): (n: int)
    reads m
    ensures n >= 1
    ensures |m.tasks| >= 1 ==> n == |m.tasks|
    ensures |m.tasks| == 0 ==> n == 1
  {
    if |m.tasks| < 1 then 1 else |m.tasks|
  }

  /**
   * Every number the menu accepts (`1..ManagerSize`) passes the registry's
   * guard exactly when the registry is non-empty; on an empty registry the
   * only accepted number, 1, is reported as invalid.
   */
  lemma MenuBoundAgreesWithGuard(m: TaskManager, index: int)
    requires 1 <= index <= ManagerSize(m)
    ensures IndexInRange(index, |m.tasks|) <==> |m.tasks| >= 1
    ensures |m.tasks| == 0 ==> index == 1
  {
  }
}
