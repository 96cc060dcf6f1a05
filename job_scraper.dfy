/** The job finder page: the applicant profile read from the environment,
    the check for missing profile fields, and the apply action that records
    an application in the stored list and flags the job as submitted. */
module JobScraper {
  import opened Common
  import opened Listing
  import opened JobTracker

  datatype Profile = Profile(
    fullName: string,
    phone: string,
    email: string,
    experience: string,
    skills: string,
    availability: string,
    motivation: string,
    certifications: string)

  /** `process.env[key] || fallback`: an unset or empty variable yields the
      fallback. */
  function EnvOr(env: map<string, string>, key: string, fallback: string): (r: string)
    ensures key in env && env[key] != "" ==> r == env[key]
    ensures key !in env || env[key] == "" ==> r == fallback
  {
    if key in env && env[key] != "" then env[key] else fallback
  }

  /** The profile the page builds; the name falls back to the placeholder
      `'User'`, every other field to the empty string. */
  function ProfileFromEnv(env: map<string, string>): Profile {
    Profile(EnvOr(env, "REACT_APP_USER_NAME", "User"),
            EnvOr(env, "REACT_APP_USER_PHONE", ""),
            EnvOr(env, "REACT_APP_USER_EMAIL", ""),
            EnvOr(env, "REACT_APP_USER_EXPERIENCE", ""),
            EnvOr(env, "REACT_APP_USER_SKILLS", ""),
            EnvOr(env, "REACT_APP_USER_AVAILABILITY", ""),
            EnvOr(env, "REACT_APP_USER_MOTIVATION", ""),
            EnvOr(env, "REACT_APP_USER_CERTIFICATIONS", ""))
  }

  /** The fields an application needs, in the order they are reported. */
  const RequiredFields: seq<string> := ["Full Name", "Email", "Phone"]

  /** Whether the profile lacks the named field; the placeholder name counts
      as no name. */
  predicate IsMissing(p: Profile, field: string) {
    if field == "Full Name" then p.fullName == "" || p.fullName == "User"
    else if field == "Email" then p.email == ""
    else p.phone == ""
  }

  /** The required fields the profile lacks, in their fixed order. */
  function MissingFields(p: Profile): (r: seq<string>)
    ensures forall f :: f in r <==> f in RequiredFields && IsMissing(p, f)
  {
    Filter(RequiredFields, (f: string) => IsMissing(p, f))
  }

  /** The missing fields come in the order Full Name, Email, Phone, and each
      is reported exactly when its value is empty (or the placeholder). */
  lemma MissingFieldsCharacterized(p: Profile)
    ensures IsSubsequence(MissingFields(p), RequiredFields)
    ensures "Full Name" in MissingFields(p) <==> p.fullName == "" || p.fullName == "User"
    ensures "Email" in MissingFields(p) <==> p.email == ""
    ensures "Phone" in MissingFields(p) <==> p.phone == ""
    ensures MissingFields(p) == [] <==> p.fullName != "" && p.fullName != "User" && p.email != "" && p.phone != ""
  {
    FilterIsSubsequence(RequiredFields, (f: string) => IsMissing(p, f));
    assert RequiredFields[0] == "Full Name" && RequiredFields[1] == "Email" && RequiredFields[2] == "Phone";
    assert IsMissing(p, "Email") <==> p.email == "";
    assert IsMissing(p, "Phone") <==> p.phone == "";
  }

  /** Without a name in the environment the placeholder is used and the name
      is reported missing, ahead of anything else. */
  lemma UnsetNameIsMissing(env: map<string, string>)
    requires "REACT_APP_USER_NAME" !in env
    ensures MissingFields(ProfileFromEnv(env)) != [] && MissingFields(ProfileFromEnv(env))[0] == "Full Name"
  {
    var keep := (f: string) => IsMissing(ProfileFromEnv(env), f);
    assert keep(RequiredFields[0]);
  }

  /** The filter over the three required fields, one field at a time. */
  lemma MissingFieldsUnfold(p: Profile)
    ensures MissingFields(p) ==
            (if IsMissing(p, "Full Name") then ["Full Name"] else []) +
            (if IsMissing(p, "Email") then ["Email"] else []) +
            (if IsMissing(p, "Phone") then ["Phone"] else [])
  {
    var keep := (f: string) => IsMissing(p, f);
    assert RequiredFields[..0] == [] && RequiredFields[..3] == RequiredFields;
    assert RequiredFields[..1] == RequiredFields[..0] + ["Full Name"];
    FilterSnoc(RequiredFields[..0], "Full Name", keep);
    assert RequiredFields[..2] == RequiredFields[..1] + ["Email"];
    FilterSnoc(RequiredFields[..1], "Email", keep);
    assert RequiredFields[..3] == RequiredFields[..2] + ["Phone"];
    FilterSnoc(RequiredFields[..2], "Phone", keep);
  }

  /** `getMissingFields`: one `push` per missing field, in order. */
  method GetMissingFields(p: Profile) returns (missing: seq<string>)
    ensures missing == MissingFields(p)
  {
    MissingFieldsUnfold(p);
    missing := [];
    if p.fullName == "" || p.fullName == "User" {
      missing := missing + ["Full Name"];
    }
    if p.email == "" {
      missing := missing + ["Email"];
    }
    if p.phone == "" {
      missing := missing + ["Phone"];
    }
  }

  /** The record the apply action stores for a scraped job. */
  function AppliedRecord(job: Job, now: int, today: string): Application {
    Application(now, job.title, job.company, job.url, "online", "applied",
                "Found on " + job.source + " - " + job.jobType, today)
  }

  /** `handleApplyJob(job)`, on the stored application list and the map of
      submitted flags. With a field missing nothing changes; otherwise the new
      record goes at the END of the stored list (the tracker's own add puts
      it in front) and only the job's own flag is set. */
  method HandleApplyJob(p: Profile, job: Job, stored: seq<Application>, status: map<string, string>,
                        now: int, today: string)
    returns (stored': seq<Application>, status': map<string, string>)
    ensures MissingFields(p) != [] ==> stored' == stored && status' == status
    ensures MissingFields(p) == [] ==> stored' == stored + [AppliedRecord(job, now, today)]
    ensures MissingFields(p) == [] ==> status'.Keys == status.Keys + {job.id} && status'[job.id] == "submitted"
    ensures forall k :: k in status && k != job.id ==> k in status' && status'[k] == status[k]
  {
    var missing := GetMissingFields(p);
    if |missing| > 0 {
      return stored, status;
    }
    var newApplication := AppliedRecord(job, now, today);
    var existingApps := stored;
    existingApps := existingApps + [newApplication];
    stored' := existingApps;
    status' := status[job.id := "submitted"];
  }

  /** The stored record is stamped with the clock and the date, copies the
      job's title, company and url, and is an online application in status
      'applied' noting the job's source and type. */
  lemma AppliedRecordFields(job: Job, now: int, today: string)
    ensures AppliedRecord(job, now, today).id == now
    ensures AppliedRecord(job, now, today).dateApplied == today
    ensures AppliedRecord(job, now, today).jobTitle == job.title
    ensures AppliedRecord(job, now, today).company == job.company
    ensures AppliedRecord(job, now, today).jobUrl == job.url
    ensures AppliedRecord(job, now, today).applicationType == "online"
    ensures AppliedRecord(job, now, today).status == "applied"
    ensures AppliedRecord(job, now, today).notes == "Found on " + job.source + " - " + job.jobType
  {
  }

  /** In the tracker, an apply raises the 'applied' counter by one and leaves
      the other counters as they were. */
  lemma AppliedShowsInStats(job: Job, stored: seq<Application>, now: int, today: string, s: string)
    ensures CountStatus(stored + [AppliedRecord(job, now, today)], s) ==
            CountStatus(stored, s) + (if s == "applied" then 1 else 0)
  {
    FilterSnoc(stored, AppliedRecord(job, now, today), (a: Application) => a.status == s);
  }
}
