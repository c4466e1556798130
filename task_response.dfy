/**
 * The mobile client's response wrapper: a payload that may carry the task
 * array under `data`, `tasks` or `results`, and the normaliser that picks one.
 * The task type itself is a type parameter: the model never looks inside it.
 */
module TaskResponse {
  import opened Wrappers

  /** The decoded wrapper; every slot is nullable. */
  datatype TasksResponse<T> = TasksResponse(
    data: Option<seq<T>>,
    tasks: Option<seq<T>>,
    results: Option<seq<T>>)
  {
    /** The three slots in the order the normaliser consults them. */
    function Slots(): (s: seq<Option<seq<T>>>)
      ensures |s| == 3
    {
      [data, tasks, results]
    }
  }

  /** The wrapper built with every constructor argument left at its default. */
  function DefaultResponse<T>(): (r: TasksResponse<T>)
    ensures forall k :: 0 <= k < |r.Slots()| ==> r.Slots()[k].None?
  {
    TasksResponse(None, None, None)
  }

  /**
   * Reference definition: the list held by the first non-null slot, or the
   * empty list when every slot is null.
   */
  function FirstPresent<T>(slots: seq<Option<seq<T>>>): seq<T>
  {
    if |slots| == 0 then []
    else if slots[0].Some? then slots[0].value
    else FirstPresent(slots[1..])
  }

  /** `data ?: tasks ?: results ?: emptyList()`. */
  function ExtractTasks<T>(r: TasksResponse<T>): (out: seq<T>)
    ensures out == [] || Some(out) in r.Slots()
  {
    match r.data
    case Some(d) => d
    case None =>
      match r.tasks
      case Some(t) => t
      case None =>
        match r.results
        case Some(x) => x
        case None => []
  }

  /** The first non-null slot decides, whatever the later slots hold. */
  lemma {:induction false} FirstPresentAt<T>(slots: seq<Option<seq<T>>>, k: nat)
    requires k < |slots| && slots[k].Some?
    requires forall j :: 0 <= j < k ==> slots[j].None?
    ensures FirstPresent(slots) == slots[k].value
  {
    if k > 0 {
      FirstPresentAt(slots[1..], k - 1);
    }
  }

  /** With no slot present the result is the empty list. */
  lemma {:induction false} FirstPresentAbsent<T>(slots: seq<Option<seq<T>>>)
    requires forall j :: 0 <= j < |slots| ==> slots[j].None?
    ensures FirstPresent(slots) == []
  {
    if |slots| > 0 {
      FirstPresentAbsent(slots[1..]);
    }
  }

  /** The elvis chain computes the reference definition on every payload. */
  lemma ExtractAgreesWithReference<T>(r: TasksResponse<T>)
    ensures ExtractTasks(r) == FirstPresent(r.Slots())
  {
    var s := r.Slots();
    if r.data.Some? {
      FirstPresentAt(s, 0);
    } else if r.tasks.Some? {
      FirstPresentAt(s, 1);
    } else if r.results.Some? {
      FirstPresentAt(s, 2);
    } else {
      FirstPresentAbsent(s);
    }
  }

  /** The result is the first present slot's list; no merging, no reordering. */
  lemma ExtractPicksFirstPresent<T>(r: TasksResponse<T>, k: nat)
    requires k < 3 && r.Slots()[k].Some?
    requires forall j :: 0 <= j < k ==> r.Slots()[j].None?
    ensures ExtractTasks(r) == r.Slots()[k].value
  {
    ExtractAgreesWithReference(r);
    FirstPresentAt(r.Slots(), k);
  }

  /** A non-null `data` wins regardless of `tasks` and `results`. */
  lemma ExtractPrefersData<T>(d: seq<T>, t: Option<seq<T>>, x: Option<seq<T>>)
    ensures ExtractTasks(TasksResponse(Some(d), t, x)) == d
  {
    ExtractPicksFirstPresent(TasksResponse(Some(d), t, x), 0);
  }

  /** With `data` null, a non-null `tasks` wins regardless of `results`. */
  lemma ExtractFallsToTasks<T>(t: seq<T>, x: Option<seq<T>>)
    ensures ExtractTasks(TasksResponse(None, Some(t), x)) == t
  {
    ExtractPicksFirstPresent(TasksResponse(None, Some(t), x), 1);
  }

  /** With `data` and `tasks` null, `results` is returned. */
  lemma ExtractFallsToResults<T>(x: seq<T>)
    ensures ExtractTasks(TasksResponse(None, None, Some(x))) == x
  {
    ExtractPicksFirstPresent(TasksResponse(None, None, Some(x)), 2);
  }

  /** All slots null, as in the default wrapper, gives the empty list. */
  lemma ExtractAllAbsent<T>(r: TasksResponse<T>)
    requires r.data.None? && r.tasks.None? && r.results.None?
    ensures ExtractTasks(r) == []
    ensures ExtractTasks(DefaultResponse<T>()) == []
  {
    FirstPresentAbsent(r.Slots());
    FirstPresentAbsent(DefaultResponse<T>().Slots());
  }

  /** Falling through happens on null only: an empty non-null `data` still wins. */
  lemma ExtractEmptyDataWins<T>(t: Option<seq<T>>, x: Option<seq<T>>)
    ensures ExtractTasks(TasksResponse(Some([]), t, x)) == []
  {
    ExtractPrefersData([], t, x);
  }

  /**
   * The result is empty exactly when no slot is present or the first present
   * slot holds the empty list.
   */
  lemma ExtractEmptyIff<T>(r: TasksResponse<T>)
    ensures ExtractTasks(r) == [] <==>
      (r.data.None? && r.tasks.None? && r.results.None?) ||
      (exists k :: 0 <= k < 3 && r.Slots()[k] == Some([]) &&
                   forall j :: 0 <= j < k ==> r.Slots()[j].None?)
  {
    var s := r.Slots();
    if r.data.Some? {
      assert s[0] == r.data;
    } else if r.tasks.Some? {
      assert s[1] == r.tasks;
    } else if r.results.Some? {
      assert s[2] == r.results;
    }
  }
}
