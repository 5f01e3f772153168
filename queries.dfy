/** The read-only entity handlers and the selections the reports are built
    from, as functions of the stored tables. A table is a sequence of
    documents in insertion order, the order in which the store returns them. */
module Queries {
  import opened Common
  import opened CertStatus
  import opened Records

  // ------------------------------------------------------------ drivers

  /** GET /drivers: the active drivers, soft-deleted ones left out. */
  function ActiveDrivers(ds: seq<Driver>): (r: seq<Driver>)
    ensures forall d :: d in r <==> d in ds && d.isActive
  {
    Filter(ds, (d: Driver) => d.isActive)
  }

  /** GET /drivers/{id}: the driver with that id, provided it is active. */
  function GetDriver(ds: seq<Driver>, id: Id): (r: Result<Driver>)
    ensures r.Ok? ==> r.value in ds && r.value.id == id && r.value.isActive
    ensures r.Err? <==> (forall d :: d in ds && d.id == id ==> !d.isActive)
    ensures r.Err? ==> r.error == NotFound
  {
    var active := ActiveDrivers(ds);
    match IndexOf(DriverIds(active), id)
    case None => Err(NotFound)
    case Some(k) => Ok(active[k])
  }

  /** Among drivers with distinct ids, a driver is found by its id exactly
      when it is active. */
  lemma GetDriverFindsActive(ds: seq<Driver>, i: nat)
    requires Distinct(DriverIds(ds)) && i < |ds|
    ensures GetDriver(ds, ds[i].id) == (if ds[i].isActive then Ok(ds[i]) else Err(NotFound))
  {
    var r := GetDriver(ds, ds[i].id);
    if r.Ok? {
      var j :| 0 <= j < |ds| && ds[j] == r.value;
      assert DriverIds(ds)[j] == DriverIds(ds)[i];
    }
  }

  // ------------------------------------------------------------ modules

  /** GET /training-modules/{id}. */
  function GetTrainingModule(ms: seq<TrainingModule>, id: Id): (r: Result<TrainingModule>)
    ensures r.Ok? ==> r.value in ms && r.value.id == id
    ensures r.Err? <==> id !in ModuleIds(ms)
    ensures r.Err? ==> r.error == NotFound
  {
    match IndexOf(ModuleIds(ms), id)
    case None => Err(NotFound)
    case Some(k) => Ok(ms[k])
  }

  /** The module name shown beside a progress record, or a placeholder when
      the module does not exist. */
  function ModuleName(ms: seq<TrainingModule>, id: Id): (r: string)
    ensures id !in ModuleIds(ms) ==> r == UnknownModule
    ensures id in ModuleIds(ms) ==> exists m :: m in ms && m.id == id && m.name == r
  {
    match GetTrainingModule(ms, id)
    case Ok(m) => m.name
    case Err(_) => UnknownModule
  }

  const UnknownModule: string := "Unknown Module"

  function MandatoryModules(ms: seq<TrainingModule>): (r: seq<TrainingModule>)
    ensures forall m :: m in r <==> m in ms && m.isMandatory
  {
    Filter(ms, (m: TrainingModule) => m.isMandatory)
  }

  // ----------------------------------------------------------- progress

  /** A query parameter applies only when it is a non-empty string. */
  predicate Applies(filter: Option<Id>)
  {
    filter.Some? && filter.value != ""
  }

  /** GET /training-progress with the optional driver and module filters. */
  function ListProgress(ps: seq<TrainingProgress>, driverId: Option<Id>, moduleId: Option<Id>): (r: seq<TrainingProgress>)
    ensures forall p :: p in r <==>
      p in ps
      && (Applies(driverId) ==> p.driverId == driverId.value)
      && (Applies(moduleId) ==> p.moduleId == moduleId.value)
    ensures !Applies(driverId) && !Applies(moduleId) ==> r == ps
  {
    var byDriver := if Applies(driverId) then ProgressOfDriver(ps, driverId.value) else ps;
    if Applies(moduleId) then ProgressOfModule(byDriver, moduleId.value) else byDriver
  }

  function ProgressOfDriver(ps: seq<TrainingProgress>, driverId: Id): (r: seq<TrainingProgress>)
    ensures forall p :: p in r <==> p in ps && p.driverId == driverId
  {
    Filter(ps, (p: TrainingProgress) => p.driverId == driverId)
  }

  function ProgressOfModule(ps: seq<TrainingProgress>, moduleId: Id): (r: seq<TrainingProgress>)
    ensures forall p :: p in r <==> p in ps && p.moduleId == moduleId
  {
    Filter(ps, (p: TrainingProgress) => p.moduleId == moduleId)
  }

  function WithStatus(ps: seq<TrainingProgress>, status: TrainingStatus): (r: seq<TrainingProgress>)
    ensures forall p :: p in r <==> p in ps && p.status == status
  {
    Filter(ps, (p: TrainingProgress) => p.status == status)
  }

  /** Every record has exactly one of the five statuses, so the five
      per-status counts add up to the number of records. */
  lemma {:induction false} StatusPartition(ps: seq<TrainingProgress>)
    ensures |WithStatus(ps, NotStarted)| + |WithStatus(ps, InProgress)| + |WithStatus(ps, Completed)|
          + |WithStatus(ps, TrainingStatus.Expired)| + |WithStatus(ps, Failed)| == |ps|
  {
    if ps != [] {
      StatusPartition(ps[1..]);
    }
  }

  /** A completed record whose score is recorded and non-zero (a score of 0
      is falsy and is left out of averages). */
  predicate IsScoredCompletion(p: TrainingProgress)
  {
    p.status == Completed && p.score.Some? && p.score.value != 0
  }

  /** `[p.score for p in ps if completed and p.score]`. */
  function CompletedScores(ps: seq<TrainingProgress>): (r: seq<int>)
    ensures |r| == |Filter(ps, IsScoredCompletion)|
    ensures forall k :: 0 <= k < |r| ==> Filter(ps, IsScoredCompletion)[k].score == Some(r[k])
    ensures |r| <= |WithStatus(ps, Completed)|
    ensures forall x :: x in r ==> x != 0
    ensures forall p :: p in ps && IsScoredCompletion(p) ==> p.score.value in r
  {
    var scored := Filter(ps, IsScoredCompletion);
    FilterMonotone(ps, IsScoredCompletion, (p: TrainingProgress) => p.status == Completed);
    var r := ScoresOf(scored);
    assert forall k :: 0 <= k < |scored| ==> scored[k] in scored;
    assert forall p :: p in scored ==> p.score.value in r by {
      forall p | p in scored ensures p.score.value in r {
        var k :| 0 <= k < |scored| && scored[k] == p;
        assert r[k] == p.score.value;
      }
    }
    r
  }

  /** The recorded scores of `qs`, in order. */
  function ScoresOf(qs: seq<TrainingProgress>): (r: seq<int>)
    requires forall q :: q in qs ==> q.score.Some?
    ensures |r| == |qs| && forall k :: 0 <= k < |qs| ==> qs[k].score == Some(r[k])
  {
    seq(|qs|, k requires 0 <= k < |qs| => assert qs[k] in qs; qs[k].score.value)
  }

  /** A record whose attempts counter is non-zero (truthy). */
  predicate HasAttempts(p: TrainingProgress)
  {
    p.attempts != 0
  }

  /** `[p.attempts for p in ps if p.attempts]`. */
  function NonZeroAttempts(ps: seq<TrainingProgress>): (r: seq<int>)
    ensures |r| == |Filter(ps, HasAttempts)| <= |ps|
    ensures forall k :: 0 <= k < |r| ==> r[k] == Filter(ps, HasAttempts)[k].attempts
    ensures forall x :: x in r ==> x >= 1
    ensures forall p :: p in ps && p.attempts != 0 ==> p.attempts in r
  {
    if ps == [] then []
    else
      var rest := NonZeroAttempts(ps[1..]);
      assert forall p :: p in ps && p != ps[0] ==> p in ps[1..];
      if ps[0].attempts != 0 then [ps[0].attempts as int] + rest else rest
  }

  // ----------------------------------------------------- certifications

  function CertificationsOfDriver(cs: seq<Certification>, driverId: Id): (r: seq<Certification>)
    ensures forall c :: c in r <==> c in cs && c.driverId == driverId
  {
    Filter(cs, (c: Certification) => c.driverId == driverId)
  }

  /** The selection of GET /certifications, before statuses are recomputed. */
  function CertificationQuery(cs: seq<Certification>, driverId: Option<Id>): (r: seq<Certification>)
    ensures forall c :: c in r <==> c in cs && (Applies(driverId) ==> c.driverId == driverId.value)
  {
    if Applies(driverId) then CertificationsOfDriver(cs, driverId.value) else cs
  }

  /** Expired by direct date comparison: expiry before today. */
  function ExpiredCertifications(cs: seq<Certification>, today: Day): (r: seq<Certification>)
    ensures forall c :: c in r <==> c in cs && c.expiryDate < today
  {
    Filter(cs, (c: Certification) => c.expiryDate < today)
  }

  /** Expiring by direct date comparison: from today to 30 days ahead, inclusive. */
  function ExpiringCertifications(cs: seq<Certification>, today: Day): (r: seq<Certification>)
    ensures forall c :: c in r <==> c in cs && today <= c.expiryDate <= today + ExpiringWindow
  {
    Filter(cs, (c: Certification) => today <= c.expiryDate <= today + ExpiringWindow)
  }

  /** No certification is both expired and expiring. */
  lemma ExpiredAndExpiringDisjoint(cs: seq<Certification>, today: Day)
    ensures |ExpiredCertifications(cs, today)| + |ExpiringCertifications(cs, today)| <= |cs|
  {
    FilterDisjoint(cs, (c: Certification) => c.expiryDate < today,
                       (c: Certification) => today <= c.expiryDate <= today + ExpiringWindow);
  }

  /** The inline date comparisons pick out exactly the certifications that the
      status rule calls Expired and ExpiringSoon. */
  lemma DateComparisonsMatchStatus(cs: seq<Certification>, today: Day)
    ensures ExpiredCertifications(cs, today)
         == Filter(cs, (c: Certification) => StatusOf(c.expiryDate, today) == CertificationStatus.Expired)
    ensures ExpiringCertifications(cs, today)
         == Filter(cs, (c: Certification) => StatusOf(c.expiryDate, today) == ExpiringSoon)
  {
    FilterCongruent(cs, (c: Certification) => c.expiryDate < today,
                        (c: Certification) => StatusOf(c.expiryDate, today) == CertificationStatus.Expired);
    FilterCongruent(cs, (c: Certification) => today <= c.expiryDate <= today + ExpiringWindow,
                        (c: Certification) => StatusOf(c.expiryDate, today) == ExpiringSoon);
  }
}
