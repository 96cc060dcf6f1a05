/** The application tracker: the list of applications, the add form, and the
    derived view and counters. Every transition builds a new list from the old
    one (spread, `filter`, `map`); the React setters only replace the value,
    so each transition is a function from the old state to the new. */
module JobTracker {
  import opened Common

  /** One tracked application. `id` is the `Date.now()` of its creation. */
  datatype Application = Application(
    id: int,
    jobTitle: string,
    company: string,
    jobUrl: string,
    applicationType: string,
    status: string,
    notes: string,
    dateApplied: string)

  /** The add form's controlled inputs. */
  datatype Form = Form(
    jobTitle: string,
    company: string,
    jobUrl: string,
    applicationType: string,
    status: string,
    notes: string,
    showForm: bool)

  datatype Tracker = Tracker(applications: seq<Application>, form: Form)

  /** The five statuses the form offers, in the order of the counters. */
  const Statuses: seq<string> := ["ready", "applied", "interview", "rejected", "offered"]

  /** `resetForm`: every input back to its initial value, the list untouched. */
  function ResetForm(t: Tracker): (r: Tracker)
    ensures r.applications == t.applications
    ensures r.form.jobTitle == "" && r.form.company == "" && r.form.jobUrl == "" && r.form.notes == ""
    ensures r.form.applicationType == "online" && r.form.status == "ready" && !r.form.showForm
  {
    Tracker(t.applications, Form("", "", "", "online", "ready", "", false))
  }

  lemma ResetFormIdempotent(t: Tracker)
    ensures ResetForm(ResetForm(t)) == ResetForm(t)
  {
  }

  /** The record an add builds from the form, stamped with `Date.now()` and
      `toLocaleDateString()`. */
  function NewApplication(f: Form, now: int, today: string): Application {
    Application(now, f.jobTitle, f.company, f.jobUrl, f.applicationType, f.status, f.notes, today)
  }

  /** `addApplication`: refused (the list and the form are left as they are)
      when the title or the company is empty; otherwise the new record goes
      in FRONT of the list and the form is reset. */
  function AddApplication(t: Tracker, now: int, today: string): (r: Tracker)
    ensures t.form.jobTitle == "" || t.form.company == "" ==> r == t
    ensures t.form.jobTitle != "" && t.form.company != "" ==>
              |r.applications| == |t.applications| + 1 &&
              r.applications[1..] == t.applications &&
              r.applications[0] == NewApplication(t.form, now, today) &&
              r.form == ResetForm(t).form
  {
    if t.form.jobTitle == "" || t.form.company == "" then t
    else ResetForm(Tracker([NewApplication(t.form, now, today)] + t.applications, t.form))
  }

  /** A refused add stays refused however often it is retried, and after a
      successful add the form is empty, so adding again changes nothing. */
  lemma AddTwiceAddsOnce(t: Tracker, now: int, now': int, today: string)
    ensures AddApplication(AddApplication(t, now, today), now', today) == AddApplication(t, now, today)
  {
  }

  /** `deleteApplication(id)`: the records whose id differs, in order. */
  function DeleteApplication(apps: seq<Application>, id: int): (r: seq<Application>)
    ensures forall a :: a in r <==> a in apps && a.id != id
    ensures forall i :: 0 <= i < |r| ==> r[i].id != id
    ensures |r| <= |apps|
  {
    Filter(apps, (a: Application) => a.id != id)
  }

  lemma DeleteIsSubsequence(apps: seq<Application>, id: int)
    ensures IsSubsequence(DeleteApplication(apps, id), apps)
    ensures DeleteApplication(DeleteApplication(apps, id), id) == DeleteApplication(apps, id)
  {
    FilterIsSubsequence(apps, (a: Application) => a.id != id);
    FilterIdempotent(apps, (a: Application) => a.id != id);
  }

  /** Deleting an id no record carries changes nothing. */
  lemma DeleteAbsentId(apps: seq<Application>, id: int)
    requires forall i :: 0 <= i < |apps| ==> apps[i].id != id
    ensures DeleteApplication(apps, id) == apps
  {
    FilterKeepsAll(apps, (a: Application) => a.id != id);
  }

  /** Deleting the record just added, under an id that was fresh, gives back
      the list from before the add. */
  lemma DeleteUndoesAdd(t: Tracker, now: int, today: string)
    requires t.form.jobTitle != "" && t.form.company != ""
    requires forall i :: 0 <= i < |t.applications| ==> t.applications[i].id != now
    ensures DeleteApplication(AddApplication(t, now, today).applications, now) == t.applications
  {
    var added := AddApplication(t, now, today).applications;
    assert added == [NewApplication(t.form, now, today)] + t.applications;
    assert added[1..] == t.applications;
    DeleteAbsentId(t.applications, now);
  }

  /** `updateStatus(id, newStatus)`: the same records in the same order; those
      with the id carry the new status and nothing else about them changes. */
  function UpdateStatus(apps: seq<Application>, id: int, newStatus: string): (r: seq<Application>)
    ensures |r| == |apps|
    ensures forall i :: 0 <= i < |r| ==> r[i].id == apps[i].id
    ensures forall i :: 0 <= i < |r| && apps[i].id == id ==> r[i].status == newStatus
    ensures forall i :: 0 <= i < |r| ==> r[i].(status := apps[i].status) == apps[i]
    ensures forall i :: 0 <= i < |r| && apps[i].id != id ==> r[i] == apps[i]
  {
    seq(|apps|, i requires 0 <= i < |apps| =>
      if apps[i].id == id then apps[i].(status := newStatus) else apps[i])
  }

  lemma UpdateStatusIdempotent(apps: seq<Application>, id: int, newStatus: string)
    ensures UpdateStatus(UpdateStatus(apps, id, newStatus), id, newStatus) == UpdateStatus(apps, id, newStatus)
  {
  }

  /** Deleting an id after changing its status is deleting it outright. */
  lemma {:induction false} DeleteAfterUpdate(apps: seq<Application>, id: int, newStatus: string)
    ensures DeleteApplication(UpdateStatus(apps, id, newStatus), id) == DeleteApplication(apps, id)
  {
    if apps != [] {
      var u := UpdateStatus(apps, id, newStatus);
      assert u[1..] == UpdateStatus(apps[1..], id, newStatus);
      DeleteAfterUpdate(apps[1..], id, newStatus);
    }
  }

  /** The view filter: the status selector (`'all'` lets everything through)
      and the search box, matched case-insensitively against title or company. */
  predicate Matches(a: Application, filterStatus: string, query: string) {
    (filterStatus == "all" || a.status == filterStatus) &&
    (query == "" ||
     Contains(Lower(a.jobTitle), Lower(query)) ||
     Contains(Lower(a.company), Lower(query)))
  }

  /** `filteredApps`. */
  function FilteredApps(apps: seq<Application>, filterStatus: string, query: string): (r: seq<Application>)
    ensures |r| <= |apps|
  {
    Filter(apps, (a: Application) => Matches(a, filterStatus, query))
  }

  /** The view is an order-preserving subsequence of the list holding exactly
      the records that pass both the status and the search test. */
  lemma FilteredAppsCharacterized(apps: seq<Application>, filterStatus: string, query: string)
    ensures IsSubsequence(FilteredApps(apps, filterStatus, query), apps)
    ensures forall a :: a in FilteredApps(apps, filterStatus, query) <==>
              a in apps && (filterStatus == "all" || a.status == filterStatus) &&
              (query == "" || Contains(Lower(a.jobTitle), Lower(query)) || Contains(Lower(a.company), Lower(query)))
  {
    FilterIsSubsequence(apps, (a: Application) => Matches(a, filterStatus, query));
  }

  /** With `'all'` and an empty search the view is the whole list. */
  lemma UnfilteredViewIsWholeList(apps: seq<Application>)
    ensures FilteredApps(apps, "all", "") == apps
  {
    FilterKeepsAll(apps, (a: Application) => Matches(a, "all", ""));
  }

  /** The counters above the list. */
  datatype Stats = Stats(total: nat, ready: nat, applied: nat, interview: nat, rejected: nat, offered: nat)

  /** `applications.filter(a => a.status === s).length`. */
  function CountStatus(apps: seq<Application>, s: string): (n: nat)
    ensures n <= |apps|
  {
    Count(apps, (a: Application) => a.status == s)
  }

  function ComputeStats(apps: seq<Application>): (r: Stats)
    ensures r.total == |apps|
    ensures r.ready <= r.total && r.applied <= r.total && r.interview <= r.total &&
            r.rejected <= r.total && r.offered <= r.total
  {
    Stats(|apps|, CountStatus(apps, "ready"), CountStatus(apps, "applied"),
          CountStatus(apps, "interview"), CountStatus(apps, "rejected"), CountStatus(apps, "offered"))
  }

  lemma CountStatusCons(a: Application, apps: seq<Application>, s: string)
    ensures CountStatus([a] + apps, s) == (if a.status == s then 1 else 0) + CountStatus(apps, s)
  {
    CountCons(a, apps, (x: Application) => x.status == s);
  }

  function StatusSum(st: Stats): nat {
    st.ready + st.applied + st.interview + st.rejected + st.offered
  }

  /** A record counts under at most one status, so the five counters never
      add up to more than the total. */
  lemma {:induction false} StatsBounded(apps: seq<Application>)
    ensures StatusSum(ComputeStats(apps)) <= ComputeStats(apps).total
  {
    if apps != [] {
      StatsBounded(apps[1..]);
      assert [apps[0]] + apps[1..] == apps;
      forall s | s in Statuses {
        CountStatusCons(apps[0], apps[1..], s);
      }
      assert "ready" in Statuses && "applied" in Statuses && "interview" in Statuses &&
             "rejected" in Statuses && "offered" in Statuses;
    }
  }

  /** A successful add raises the total and the counter of the form's
      status by one and leaves the other counters as they were. */
  lemma StatsAfterAdd(t: Tracker, now: int, today: string, s: string)
    requires t.form.jobTitle != "" && t.form.company != ""
    ensures CountStatus(AddApplication(t, now, today).applications, s) ==
            CountStatus(t.applications, s) + (if t.form.status == s then 1 else 0)
    ensures ComputeStats(AddApplication(t, now, today).applications).total == ComputeStats(t.applications).total + 1
  {
    var added := AddApplication(t, now, today).applications;
    assert added == [NewApplication(t.form, now, today)] + t.applications;
    CountStatusCons(NewApplication(t.form, now, today), t.applications, s);
  }

  /** Deleting never raises a counter. */
  lemma {:induction false} CountAfterDelete(apps: seq<Application>, id: int, s: string)
    ensures CountStatus(DeleteApplication(apps, id), s) <= CountStatus(apps, s)
  {
    if apps != [] {
      var keep := (a: Application) => a.id != id;
      CountAfterDelete(apps[1..], id, s);
      assert [apps[0]] + apps[1..] == apps;
      CountStatusCons(apps[0], apps[1..], s);
      if keep(apps[0]) {
        assert DeleteApplication(apps, id) == [apps[0]] + DeleteApplication(apps[1..], id);
        CountStatusCons(apps[0], DeleteApplication(apps[1..], id), s);
      }
    }
  }
}
