/** `handleDownloadIndividually` and `handleDownloadAsZip` of the bulk
    downloader. The selection is walked in insertion order; an entry without
    a version is skipped; otherwise its progress is set to 0, its primary
    file is looked up and, when there is one, the progress goes through the
    checkpoints 0, 20, ..., 100 before the browser is handed the file. An
    exception inside one entry's attempt records -1 for that entry and the
    walk goes on with the next.

    The timers, the anchor element and its click are not modelled; what can
    go wrong in an attempt is given per project id by `outcome`.
 */
module Downloader {
  import opened Wrappers
  import opened OrderedMap
  import opened Modrinth
  import opened Selection

  /** How an attempt that has a file to fetch ends: it completes, or it
      throws after `checkpoints` progress checkpoints were published (six
      or more: when the file is handed to the browser). */
  datatype Transfer = Completes | ThrowsAfter(checkpoints: nat)

  /** One `progress.set(id, value)`, each followed by publishing a copy of
      the progress map. */
  datatype Event = Event(id: string, value: int)

  /** What became of one entry. */
  datatype Report =
    | Skipped                             // no version chosen
    | NoFile                              // the version lists no file
    | Saved(url: string, filename: string)
    | Failed

  /** `for (let i = 0; i <= 100; i += 20)`: six checkpoints. */
  const CheckpointCount: nat := 6
  const CheckpointStep: int := 20

  /** The first `n` checkpoints of one entry: all for that entry, from 0,
      never above 100, and reaching 100 when all six are passed. */
  function Checkpoints(id: string, n: nat): (r: seq<Event>)
    requires n <= CheckpointCount
    ensures |r| == n
    ensures forall j :: 0 <= j < n ==> r[j].id == id && 0 <= r[j].value <= 100
    ensures n > 0 ==> r[0].value == 0
    ensures n == CheckpointCount ==> r[n - 1].value == 100
  {
    seq(n, j requires 0 <= j < n => Event(id, CheckpointStep * j))
  }

  /** The checkpoints rise strictly: a progress bar never goes back. */
  lemma CheckpointsRise(id: string, n: nat)
    requires n <= CheckpointCount
    ensures forall j, k :: 0 <= j < k < n ==> Checkpoints(id, n)[j].value < Checkpoints(id, n)[k].value
  {
  }

  /** How many checkpoints an attempt with a file reaches. */
  function Reached(t: Transfer): (n: nat)
    ensures n <= CheckpointCount
  {
    if t.ThrowsAfter? && t.checkpoints < CheckpointCount then t.checkpoints else CheckpointCount
  }

  /** The updates of an attempt that has a file: its checkpoints, then -1
      when it throws. */
  function TransferEvents(id: string, t: Transfer): seq<Event>
  {
    Checkpoints(id, Reached(t)) + if t.ThrowsAfter? then [Event(id, -1)] else []
  }

  /** The progress updates of one entry, from the initial 0 to the end. */
  function ItemEvents(id: string, e: Entry, t: Transfer): seq<Event>
  {
    match e.version
    case None => []
    case Some(v) => [Event(id, 0)] + if PrimaryFile(v.files).Some? then TransferEvents(id, t) else []
  }

  /** Every update of an entry is about that entry. */
  lemma ItemIds(id: string, e: Entry, t: Transfer)
    ensures forall j :: 0 <= j < |ItemEvents(id, e, t)| ==> ItemEvents(id, e, t)[j].id == id
  {
    if e.version.Some? && PrimaryFile(e.version.value.files).Some? {
      var c := Checkpoints(id, Reached(t));
      var tail: seq<Event> := if t.ThrowsAfter? then [Event(id, -1)] else [];
      assert forall j :: 0 <= j < |c + tail| ==> (c + tail)[j].id == id;
    }
  }

  function ItemReport(e: Entry, t: Transfer): Report
  {
    match e.version
    case None => Skipped
    case Some(v) =>
      match PrimaryFile(v.files)
      case None => NoFile
      case Some(f) => if t.Completes? then Saved(f.url, f.filename) else Failed
  }

  /** The progress an entry is left with: none when it was skipped, 0 when
      it had no file, 100 when it completed, -1 when it failed. */
  function FinalProgress(e: Entry, t: Transfer): Option<int>
  {
    match e.version
    case None => None
    case Some(v) =>
      match PrimaryFile(v.files)
      case None => Some(0)
      case Some(_) => if t.Completes? then Some(100) else Some(-1)
  }

  /** All progress updates of a walk, entry after entry. */
  function AllEvents(sel: Selection, outcome: string -> Transfer): seq<Event>
  {
    if |sel| == 0 then [] else ItemEvents(sel[0].0, sel[0].1, outcome(sel[0].0)) + AllEvents(sel[1..], outcome)
  }

  /** The progress map after a sequence of updates. */
  function Apply(m: Pairs<int>, events: seq<Event>): Pairs<int>
  {
    if |events| == 0 then m
    else
      var last := events[|events| - 1];
      Put(Apply(m, events[..|events| - 1]), last.id, last.value)
  }

  // ---------------------------------------------------------------------------
  // The walk

  /** `handleDownloadIndividually()`: whether the download dialog opens, the
      progress updates in the order they are published, and one report per
      entry. The progress map shown after the j-th update is
      `Apply([], events[..j + 1])`. */
  method DownloadIndividually(sel: Selection, outcome: string -> Transfer)
    returns (shown: bool, events: seq<Event>, reports: seq<Report>)
    ensures shown <==> |sel| > 0
    ensures |sel| == 0 ==> events == [] && reports == []
    ensures events == AllEvents(sel, outcome)
    ensures |reports| == |sel|
    ensures forall i :: 0 <= i < |sel| ==> reports[i] == ItemReport(sel[i].1, outcome(sel[i].0))
  {
    events, reports := [], [];
    if |sel| == 0 {
      return false, events, reports;
    }
    shown := true;
    var i := 0;
    while i < |sel|
      invariant 0 <= i <= |sel|
      invariant events == AllEvents(sel[..i], outcome)
      invariant reports == AllReports(sel[..i], outcome)
    {
      var id := sel[i].0;
      WalkStep(sel, i, outcome);
      var item, report := Attempt(id, sel[i].1, outcome(id));
      events := events + item;
      reports := reports + [report];
      i := i + 1;
    }
    assert sel[..i] == sel;
  }

  /** The report of each entry, in selection order. */
  function AllReports(sel: Selection, outcome: string -> Transfer): seq<Report>
  {
    seq(|sel|, i requires 0 <= i < |sel| => ItemReport(sel[i].1, outcome(sel[i].0)))
  }

  /** One turn of the walk: the body of the `for ... of` with its `try`. */
  method Attempt(id: string, entry: Entry, t: Transfer) returns (item: seq<Event>, report: Report)
    ensures item == ItemEvents(id, entry, t)
    ensures report == ItemReport(entry, t)
  {
    if entry.version.None? {
      return [], Skipped;
    }
    var primary := PrimaryFile(entry.version.value.files);
    if primary.None? {
      return [Event(id, 0)], NoFile;
    }
    var steps := Checkpointing(id, Reached(t));
    item := [Event(id, 0)] + steps;
    if t.ThrowsAfter? {
      item := item + [Event(id, -1)];
      report := Failed;
    } else {
      report := Saved(primary.value.url, primary.value.filename);
    }
  }

  /** The inner `for (let i = 0; i <= 100; i += 20)`, stopped after `limit`
      checkpoints when the attempt throws before the end. */
  method Checkpointing(id: string, limit: nat) returns (steps: seq<Event>)
    requires limit <= CheckpointCount
    ensures steps == Checkpoints(id, limit)
  {
    steps := [];
    var reached: nat := 0;
    var value := 0;
    while value <= 100 && reached < limit
      invariant reached <= limit
      invariant value == CheckpointStep * reached
      invariant steps == Checkpoints(id, reached)
    {
      steps := steps + [Event(id, value)];
      reached := reached + 1;
      value := value + CheckpointStep;
    }
  }

  /** `handleDownloadAsZip()`: no archive is built. For a non-empty selection
      the user is alerted and then the individual download runs unchanged. */
  method DownloadAsZip(sel: Selection, outcome: string -> Transfer)
    returns (alerted: bool, shown: bool, events: seq<Event>, reports: seq<Report>)
    ensures alerted <==> |sel| > 0
    ensures shown <==> |sel| > 0
    ensures events == AllEvents(sel, outcome)
    ensures |reports| == |sel|
    ensures forall i :: 0 <= i < |sel| ==> reports[i] == ItemReport(sel[i].1, outcome(sel[i].0))
  {
    if |sel| == 0 {
      return false, false, [], [];
    }
    alerted := true;
    shown, events, reports := DownloadIndividually(sel, outcome);
  }

  // ---------------------------------------------------------------------------
  // Properties of the walk

  lemma {:induction false} AllEventsSnoc(sel: Selection, last: (string, Entry), outcome: string -> Transfer)
    ensures AllEvents(sel + [last], outcome) == AllEvents(sel, outcome) + ItemEvents(last.0, last.1, outcome(last.0))
  {
    if |sel| == 0 {
      assert [last][1..] == [];
    } else {
      assert (sel + [last])[1..] == sel[1..] + [last];
      AllEventsSnoc(sel[1..], last, outcome);
    }
  }

  /** One more turn of the walk adds that entry's updates. */
  lemma WalkStep(sel: Selection, i: nat, outcome: string -> Transfer)
    requires i < |sel|
    ensures AllEvents(sel[..i + 1], outcome) == AllEvents(sel[..i], outcome) + ItemEvents(sel[i].0, sel[i].1, outcome(sel[i].0))
    ensures AllReports(sel[..i + 1], outcome) == AllReports(sel[..i], outcome) + [ItemReport(sel[i].1, outcome(sel[i].0))]
  {
    assert sel[..i + 1] == sel[..i] + [sel[i]];
    AllEventsSnoc(sel[..i], sel[i], outcome);
  }

  lemma {:induction false} ApplyAppend(m: Pairs<int>, a: seq<Event>, b: seq<Event>)
    ensures Apply(m, a + b) == Apply(Apply(m, a), b)
    decreases |b|
  {
    if |b| == 0 {
      assert a + b == a;
    } else {
      var n := |b| - 1;
      assert (a + b)[..|a + b| - 1] == a + b[..n];
      ApplyAppend(m, a, b[..n]);
    }
  }

  /** Updates of other entries leave an entry's progress alone. */
  lemma {:induction false} ApplyOther(m: Pairs<int>, events: seq<Event>, k: string)
    requires forall j :: 0 <= j < |events| ==> events[j].id != k
    ensures Lookup(Apply(m, events), k) == Lookup(m, k)
    decreases |events|
  {
    if |events| > 0 {
      ApplyOther(m, events[..|events| - 1], k);
    }
  }

  /** After an entry's own updates its progress is the last value set. */
  lemma ApplyOwn(m: Pairs<int>, events: seq<Event>, k: string)
    requires |events| > 0
    ensures Lookup(Apply(m, events), k) == if events[|events| - 1].id == k then Some(events[|events| - 1].value) else Lookup(Apply(m, events[..|events| - 1]), k)
  {
  }

  /** An entry's own updates leave it at its final progress. */
  lemma ItemLeavesFinal(m: Pairs<int>, id: string, e: Entry, t: Transfer)
    ensures Lookup(Apply(m, ItemEvents(id, e, t)), id)
            == if FinalProgress(e, t).Some? then FinalProgress(e, t) else Lookup(m, id)
  {
    var item := ItemEvents(id, e, t);
    if |item| > 0 {
      ApplyOwn(m, item, id);
      if e.version.Some? && PrimaryFile(e.version.value.files).Some? && t.Completes? {
        assert item[|item| - 1] == Event(id, 100);
      }
    }
  }

  lemma {:induction false} AllEventsIds(sel: Selection, outcome: string -> Transfer, k: string)
    requires k !in Keys(sel)
    ensures forall j :: 0 <= j < |AllEvents(sel, outcome)| ==> AllEvents(sel, outcome)[j].id != k
  {
    if |sel| > 0 {
      assert Keys(sel) == [sel[0].0] + Keys(sel[1..]);
      AllEventsIds(sel[1..], outcome, k);
      ItemIds(sel[0].0, sel[0].1, outcome(sel[0].0));
      var item: seq<Event> := ItemEvents(sel[0].0, sel[0].1, outcome(sel[0].0));
      var rest: seq<Event> := AllEvents(sel[1..], outcome);
      forall j | 0 <= j < |item + rest| ensures (item + rest)[j].id != k {
        if j >= |item| {
          assert (item + rest)[j] == rest[j - |item|];
        }
      }
    }
  }

  /** Applying the same updates to two maps that agree on `k` gives maps
      that still agree on `k`. */
  lemma {:induction false} ApplyAgrees(m1: Pairs<int>, m2: Pairs<int>, events: seq<Event>, k: string)
    requires Lookup(m1, k) == Lookup(m2, k)
    ensures Lookup(Apply(m1, events), k) == Lookup(Apply(m2, events), k)
    decreases |events|
  {
    if |events| > 0 {
      ApplyAgrees(m1, m2, events[..|events| - 1], k);
    }
  }

  /** The walk's updates are the first entry's, then the rest's. */
  lemma WalkSplits(m: Pairs<int>, sel: Selection, outcome: string -> Transfer, k: string)
    requires |sel| > 0
    ensures Lookup(Apply(m, AllEvents(sel, outcome)), k)
            == Lookup(Apply(Apply(m, ItemEvents(sel[0].0, sel[0].1, outcome(sel[0].0))), AllEvents(sel[1..], outcome)), k)
  {
    ApplyAppend(m, ItemEvents(sel[0].0, sel[0].1, outcome(sel[0].0)), AllEvents(sel[1..], outcome));
  }

  /** The first entry's progress is not touched by the entries after it. */
  lemma ProgressOfFirst(m: Pairs<int>, sel: Selection, outcome: string -> Transfer)
    requires UniqueKeys(sel) && |sel| > 0
    ensures Lookup(Apply(m, AllEvents(sel, outcome)), sel[0].0)
            == Lookup(Apply(m, ItemEvents(sel[0].0, sel[0].1, outcome(sel[0].0))), sel[0].0)
  {
    var k := sel[0].0;
    WalkSplits(m, sel, outcome, k);
    AllEventsIds(sel[1..], outcome, k);
    ApplyOther(Apply(m, ItemEvents(k, sel[0].1, outcome(k))), AllEvents(sel[1..], outcome), k);
  }

  /** A later entry's progress is not touched by the first entry. */
  lemma HeadLeavesOthers(m: Pairs<int>, sel: Selection, outcome: string -> Transfer, k: string, own: seq<Event>)
    requires |sel| > 0 && sel[0].0 != k
    ensures Lookup(Apply(Apply(m, ItemEvents(sel[0].0, sel[0].1, outcome(sel[0].0))), own), k)
            == Lookup(Apply(m, own), k)
  {
    var item := ItemEvents(sel[0].0, sel[0].1, outcome(sel[0].0));
    ItemIds(sel[0].0, sel[0].1, outcome(sel[0].0));
    ApplyOther(m, item, k);
    ApplyAgrees(Apply(m, item), m, own, k);
  }

  /** In a walk over distinct ids, an entry's progress is decided by its own
      updates alone: the entries before and after it do not touch it. */
  lemma {:induction false} ProgressOfEntry(m: Pairs<int>, sel: Selection, outcome: string -> Transfer, i: nat)
    requires UniqueKeys(sel)
    requires i < |sel|
    ensures Lookup(Apply(m, AllEvents(sel, outcome)), sel[i].0)
            == Lookup(Apply(m, ItemEvents(sel[i].0, sel[i].1, outcome(sel[i].0))), sel[i].0)
    decreases |sel|
  {
    if i == 0 {
      ProgressOfFirst(m, sel, outcome);
    } else {
      var k := sel[i].0;
      assert sel[1..][i - 1] == sel[i];
      var m1 := Apply(m, ItemEvents(sel[0].0, sel[0].1, outcome(sel[0].0)));
      HeadKeyDiffers(sel, i);
      WalkSplits(m, sel, outcome, k);
      ProgressOfEntry(m1, sel[1..], outcome, i - 1);
      HeadLeavesOthers(m, sel, outcome, k, ItemEvents(k, sel[i].1, outcome(k)));
    }
  }

  /** The walk leaves each entry with its final progress: 100 when it
      completed, -1 when it failed, 0 when its version had no file, and no
      record at all when it was skipped. A failure marks only the entry that
      failed. */
  lemma FinalProgressOfWalk(sel: Selection, outcome: string -> Transfer, i: nat)
    requires UniqueKeys(sel)
    requires i < |sel|
    ensures Lookup(Apply([], AllEvents(sel, outcome)), sel[i].0) == FinalProgress(sel[i].1, outcome(sel[i].0))
  {
    ProgressOfEntry([], sel, outcome, i);
    ItemLeavesFinal([], sel[i].0, sel[i].1, outcome(sel[i].0));
  }

  /** A completed entry's progress rises through 0, 20, ..., 100 and never
      goes back. */
  lemma CompletedRises(id: string, e: Entry)
    requires e.version.Some? && PrimaryFile(e.version.value.files).Some?
    ensures var r := ItemEvents(id, e, Completes);
            |r| == 1 + CheckpointCount && r[0].value == 0 && r[|r| - 1].value == 100 &&
            forall j, l :: 0 <= j <= l < |r| ==> r[j].value <= r[l].value
  {
  }
}
