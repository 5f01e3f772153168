/** The reporting handlers: the dashboard summary, the per-driver and
    per-module training statistics, the compliance verdict of one driver and
    the rows of the expiring-certification list. Rates and averages are exact
    reals; the service rounds them to two decimals, which is not modelled. */
module Analytics {
  import opened Common
  import opened CertStatus
  import opened Records
  import opened Queries

  // ----------------------------------------------------------- dashboard

  /** The expired and expiring figures count certifications, not drivers. */
  datatype DashboardSummary = DashboardSummary(
    totalDrivers: nat,
    activeDrivers: nat,
    totalTrainingModules: nat,
    expiredCertifications: nat,
    expiringCertifications: nat,
    overallCompletionRate: real,
    recentCompletions: nat)

  /** Completed records whose completion date lies no more than 30 days back;
      a record without a completion date is not recent. */
  function RecentCompletions(ps: seq<TrainingProgress>, today: Day): (r: seq<TrainingProgress>)
    ensures forall p :: p in r <==>
      p in ps && p.status == Completed && p.completionDate.Some? && p.completionDate.value >= today - 30
  {
    Filter(ps, (p: TrainingProgress) =>
      p.status == Completed && p.completionDate.Some? && p.completionDate.value >= today - 30)
  }

  function Dashboard(drivers: seq<Driver>, modules: seq<TrainingModule>,
                     progress: seq<TrainingProgress>, certifications: seq<Certification>,
                     today: Day): (r: DashboardSummary)
    ensures r.totalDrivers == r.activeDrivers == |ActiveDrivers(drivers)|
    ensures r.totalDrivers <= |drivers| && r.totalTrainingModules == |modules|
    ensures r.expiredCertifications + r.expiringCertifications <= |certifications|
    ensures 0.0 <= r.overallCompletionRate <= 100.0
    ensures progress == [] ==> r.overallCompletionRate == 0.0
    ensures progress != [] ==>
      r.overallCompletionRate == |WithStatus(progress, Completed)| as real / |progress| as real * 100.0
    ensures r.expiredCertifications == |ExpiredCertifications(certifications, today)|
    ensures r.expiringCertifications == |ExpiringCertifications(certifications, today)|
    ensures r.recentCompletions == |RecentCompletions(progress, today)| <= |WithStatus(progress, Completed)|
  {
    var active := |ActiveDrivers(drivers)|;
    var completed := |WithStatus(progress, Completed)|;
    ExpiredAndExpiringDisjoint(certifications, today);
    FilterMonotone(progress,
      (p: TrainingProgress) => p.status == Completed && p.completionDate.Some? && p.completionDate.value >= today - 30,
      (p: TrainingProgress) => p.status == Completed);
    DashboardSummary(
      active,
      active,
      |modules|,
      |ExpiredCertifications(certifications, today)|,
      |ExpiringCertifications(certifications, today)|,
      Percentage(completed, |progress|),
      |RecentCompletions(progress, today)|)
  }

  /** The dashboard's two certification figures are the numbers of
      certifications the status rule reports as Expired and as ExpiringSoon. */
  lemma DashboardMatchesStatusRule(drivers: seq<Driver>, modules: seq<TrainingModule>,
                                   progress: seq<TrainingProgress>, certifications: seq<Certification>,
                                   today: Day)
    ensures Dashboard(drivers, modules, progress, certifications, today).expiredCertifications
         == |Filter(certifications, (c: Certification) => StatusOf(c.expiryDate, today) == CertificationStatus.Expired)|
    ensures Dashboard(drivers, modules, progress, certifications, today).expiringCertifications
         == |Filter(certifications, (c: Certification) => StatusOf(c.expiryDate, today) == ExpiringSoon)|
  {
    DateComparisonsMatchStatus(certifications, today);
  }

  // --------------------------------------------------- driver analytics

  datatype TrainingStats = TrainingStats(
    totalAssigned: nat,
    completed: nat,
    inProgress: nat,
    notStarted: nat,
    failed: nat,
    completionRate: real,
    averageScore: real)

  datatype ProgressDetail = ProgressDetail(progress: TrainingProgress, moduleName: string)

  /** `certifications` are returned with the status stored at creation. */
  datatype DriverReport = DriverReport(
    driver: Driver,
    stats: TrainingStats,
    details: seq<ProgressDetail>,
    certifications: seq<Certification>)

  /** The statistics of one driver's progress records. Records whose status
      is expired fall in none of the four buckets. */
  function TrainingStatsOf(records: seq<TrainingProgress>): (s: TrainingStats)
    ensures s.totalAssigned == |records|
    ensures s.completed + s.inProgress + s.notStarted + s.failed
         == s.totalAssigned - |WithStatus(records, TrainingStatus.Expired)|
    ensures s.completed + s.inProgress + s.notStarted + s.failed <= s.totalAssigned
    ensures 0.0 <= s.completionRate <= 100.0
    ensures records == [] ==> s.completionRate == 0.0
    ensures s.completed == |WithStatus(records, Completed)|
    ensures s.inProgress == |WithStatus(records, InProgress)|
    ensures s.notStarted == |WithStatus(records, NotStarted)|
    ensures s.failed == |WithStatus(records, Failed)|
    ensures s.completionRate == Percentage(s.completed, s.totalAssigned)
    ensures s.averageScore == Average(CompletedScores(records))
    ensures Filter(records, IsScoredCompletion) == [] ==> s.averageScore == 0.0
  {
    StatusPartition(records);
    var completed := |WithStatus(records, Completed)|;
    TrainingStats(
      |records|,
      completed,
      |WithStatus(records, InProgress)|,
      |WithStatus(records, NotStarted)|,
      |WithStatus(records, Failed)|,
      Percentage(completed, |records|),
      Average(CompletedScores(records)))
  }

  /** A completion scored 0 is left out of the average score: with one
      completion scored 0 and one scored 100 the average is 100, not 50. */
  lemma ZeroScoreLeftOut(p: TrainingProgress, q: TrainingProgress)
    requires p.status == Completed && p.score == Some(0)
    requires q.status == Completed && q.score == Some(100)
    ensures TrainingStatsOf([p, q]).averageScore == 100.0
    ensures TrainingStatsOf([p, q]).completionRate == 100.0
  {
    assert [p, q][1..] == [q];
    assert CompletedScores([p, q]) == [100];
    assert Average([100]) == 100.0 by { assert [100][1..] == []; }
    assert WithStatus([p, q], Completed) == [p, q];
  }

  /** One assigned module, completed with score 95: two figures of 100 and 95. */
  lemma SingleScoredCompletion(p: TrainingProgress)
    requires p.status == Completed && p.score == Some(95)
    ensures var s := TrainingStatsOf([p]);
      s.totalAssigned == 1 && s.completed == 1 && s.completionRate == 100.0 && s.averageScore == 95.0
  {
    assert CompletedScores([p]) == [95];
    assert Average([95]) == 95.0 by { assert [95][1..] == []; }
    assert WithStatus([p], Completed) == [p];
  }

  /** Each record beside the name of its module. */
  function ProgressDetails(records: seq<TrainingProgress>, modules: seq<TrainingModule>): (r: seq<ProgressDetail>)
    ensures |r| == |records|
    ensures forall i :: 0 <= i < |r| ==> r[i].progress == records[i]
    ensures forall i :: 0 <= i < |r| ==> r[i].moduleName == ModuleName(modules, records[i].moduleId)
    ensures forall i :: 0 <= i < |r| && records[i].moduleId !in ModuleIds(modules) ==> r[i].moduleName == UnknownModule
  {
    seq(|records|, i requires 0 <= i < |records| => ProgressDetail(records[i], ModuleName(modules, records[i].moduleId)))
  }

  /** GET /analytics/driver-progress/{id}. */
  function DriverProgressAnalytics(drivers: seq<Driver>, modules: seq<TrainingModule>,
                                   progress: seq<TrainingProgress>, certifications: seq<Certification>,
                                   driverId: Id): (r: Result<DriverReport>)
    ensures r.Err? <==> GetDriver(drivers, driverId).Err?
    ensures r.Err? ==> r.error == NotFound
    ensures r.Ok? ==> r.value.driver.id == driverId && r.value.driver.isActive && r.value.driver in drivers
    ensures r.Ok? ==> r.value.stats.totalAssigned == |ProgressOfDriver(progress, driverId)| == |r.value.details|
    ensures r.Ok? ==> r.value.stats == TrainingStatsOf(ProgressOfDriver(progress, driverId))
    ensures r.Ok? ==> r.value.details == ProgressDetails(ProgressOfDriver(progress, driverId), modules)
    ensures r.Ok? ==> forall i :: 0 <= i < |r.value.details| ==>
      r.value.details[i].progress in progress && r.value.details[i].progress.driverId == driverId
    ensures r.Ok? ==> forall c :: c in r.value.certifications <==> c in certifications && c.driverId == driverId
  {
    match GetDriver(drivers, driverId)
    case Err(e) => Err(e)
    case Ok(d) =>
      var records := ProgressOfDriver(progress, driverId);
      assert forall i :: 0 <= i < |records| ==> records[i] in records;
      Ok(DriverReport(d, TrainingStatsOf(records), ProgressDetails(records, modules),
                      CertificationsOfDriver(certifications, driverId)))
  }

  /** The driver report with the certifications' status recomputed for
      `today`, as every other listing of certifications returns them. */
  function CurrentDriverProgressAnalytics(drivers: seq<Driver>, modules: seq<TrainingModule>,
                                          progress: seq<TrainingProgress>, certifications: seq<Certification>,
                                          driverId: Id, today: Day): (r: Result<DriverReport>)
    ensures r.Err? <==> GetDriver(drivers, driverId).Err?
    ensures r.Err? ==> r.error == NotFound
    ensures r.Ok? ==>
      var stored := DriverProgressAnalytics(drivers, modules, progress, certifications, driverId);
      stored.Ok? && r.value == stored.value.(certifications := RefreshedAll(stored.value.certifications, today))
    ensures r.Ok? ==> forall c :: c in r.value.certifications ==>
      c.driverId == driverId && c.status == StatusOf(c.expiryDate, today)
    ensures r.Ok? ==> forall c :: c in certifications && c.driverId == driverId ==>
      Refreshed(c, today) in r.value.certifications
  {
    match DriverProgressAnalytics(drivers, modules, progress, certifications, driverId)
    case Err(e) => Err(e)
    case Ok(report) =>
      assert RefreshedAllMembers(report.certifications, today) by {
        RefreshedAllContains(report.certifications, today);
      }
      Ok(report.(certifications := RefreshedAll(report.certifications, today)))
  }

  ghost predicate RefreshedAllMembers(cs: seq<Certification>, today: Day)
  {
    && (forall c :: c in cs ==> Refreshed(c, today) in RefreshedAll(cs, today))
    && (forall x :: x in RefreshedAll(cs, today) ==> exists c :: c in cs && x == Refreshed(c, today))
  }

  /** A refreshed listing holds exactly the refreshed certifications of the stored one. */
  lemma RefreshedAllContains(cs: seq<Certification>, today: Day)
    ensures RefreshedAllMembers(cs, today)
  {
    var r := RefreshedAll(cs, today);
    forall c | c in cs ensures Refreshed(c, today) in r {
      var k :| 0 <= k < |cs| && cs[k] == c;
      assert r[k] == Refreshed(c, today);
    }
    forall x | x in r ensures exists c :: c in cs && x == Refreshed(c, today) {
      var k :| 0 <= k < |r| && r[k] == x;
      assert cs[k] in cs && x == Refreshed(cs[k], today);
    }
  }

  /** The report returns a certification with the status stored when it was
      created: one created on day 0 that expires on day 40 is still reported
      Active on day 50, ten days after it expired. */
  lemma StoredStatusGoesStale(d: Driver, req: CertificationCreate)
    requires d.isActive && req.driverId == d.id && req.expiryDate == 40
    ensures var c := NewCertification("c1", req, 0);
      var r := DriverProgressAnalytics([d], [], [], [c], d.id);
      r.Ok? && r.value.certifications == [c] && c.status == Active
      && StatusOf(c.expiryDate, 50) == CertificationStatus.Expired
      && CurrentDriverProgressAnalytics([d], [], [], [c], d.id, 50).value.certifications[0].status
         == CertificationStatus.Expired
  {
    var c := NewCertification("c1", req, 0);
    assert DriverIds([d]) == [d.id];
    GetDriverFindsActive([d], 0);
    assert CertificationsOfDriver([c], d.id) == [c];
  }

  // --------------------------------------------------- module analytics

  datatype ModuleStats = ModuleStats(
    totalAssigned: nat,
    completed: nat,
    completionRate: real,
    averageScore: real,
    averageAttempts: real)

  /** `distribution` is the list of non-zero scores of completed records. */
  datatype ModuleReport = ModuleReport(trainingModule: TrainingModule, stats: ModuleStats, distribution: seq<int>)

  const ZeroStats: ModuleStats := ModuleStats(0, 0, 0.0, 0.0, 0.0)

  function ModuleStatsOf(records: seq<TrainingProgress>): (s: ModuleStats)
    ensures s.totalAssigned == |records|
    ensures s.completed == |WithStatus(records, Completed)| <= s.totalAssigned
    ensures 0.0 <= s.completionRate <= 100.0
    ensures s.completionRate == Percentage(s.completed, s.totalAssigned)
    ensures s.averageScore == Average(CompletedScores(records))
    ensures s.averageAttempts == Average(NonZeroAttempts(records))
    ensures s.averageAttempts == 0.0 || s.averageAttempts >= 1.0
  {
    var completed := |WithStatus(records, Completed)|;
    var attempts := NonZeroAttempts(records);
    assert attempts != [] ==> Average(attempts) >= 1.0 by {
      if attempts != [] {
        AverageBounds(attempts, 1, MaxOf(attempts));
      }
    }
    ModuleStats(|records|, completed, Percentage(completed, |records|),
                Average(CompletedScores(records)), Average(attempts))
  }

  /** An upper bound of a non-empty list (used only to bound an average). */
  function MaxOf(xs: seq<int>): (m: int)
    requires xs != []
    ensures forall x :: x in xs ==> x <= m
  {
    if |xs| == 1 then xs[0]
    else
      var rest := MaxOf(xs[1..]);
      assert forall x :: x in xs && x != xs[0] ==> x in xs[1..];
      if xs[0] > rest then xs[0] else rest
  }

  /** The general statistics of no records are the zero block, so the early
      return for a module nobody is assigned to changes no figure. */
  lemma ZeroStatsAreStatsOfNothing()
    ensures ModuleStatsOf([]) == ZeroStats
    ensures CompletedScores([]) == []
  {
  }

  /** GET /analytics/module-performance/{id}. */
  function ModulePerformance(modules: seq<TrainingModule>, progress: seq<TrainingProgress>,
                             moduleId: Id): (r: Result<ModuleReport>)
    ensures r.Err? <==> moduleId !in ModuleIds(modules)
    ensures r.Err? ==> r.error == NotFound
    ensures r.Ok? ==> r.value.trainingModule.id == moduleId && r.value.trainingModule in modules
    ensures r.Ok? && ProgressOfModule(progress, moduleId) == [] ==>
      r.value.stats == ZeroStats && r.value.distribution == []
    ensures r.Ok? && ProgressOfModule(progress, moduleId) != [] ==>
      r.value.stats == ModuleStatsOf(ProgressOfModule(progress, moduleId))
      && r.value.distribution == CompletedScores(ProgressOfModule(progress, moduleId))
    ensures r.Ok? ==> r.value.stats.totalAssigned == |ProgressOfModule(progress, moduleId)|
    ensures r.Ok? ==> r.value.stats.completed <= r.value.stats.totalAssigned
    ensures r.Ok? ==> 0.0 <= r.value.stats.completionRate <= 100.0
    ensures r.Ok? ==> forall x :: x in r.value.distribution ==> x != 0
    ensures r.Ok? ==> forall p :: p in progress && p.moduleId == moduleId && IsScoredCompletion(p) ==>
      p.score.value in r.value.distribution
  {
    match GetTrainingModule(modules, moduleId)
    case Err(e) => Err(e)
    case Ok(m) =>
      var records := ProgressOfModule(progress, moduleId);
      if records == [] then Ok(ModuleReport(m, ZeroStats, []))
      else Ok(ModuleReport(m, ModuleStatsOf(records), CompletedScores(records)))
  }

  /** The average score lies within the range of the scores it averages. */
  lemma AverageScoreWithinScores(records: seq<TrainingProgress>, lo: int, hi: int)
    requires Filter(records, IsScoredCompletion) != []
    requires forall p :: p in records && p.score.Some? ==> lo <= p.score.value <= hi
    ensures lo as real <= TrainingStatsOf(records).averageScore <= hi as real
    ensures lo as real <= ModuleStatsOf(records).averageScore <= hi as real
  {
    var scores := CompletedScores(records);
    forall x | x in scores ensures lo <= x <= hi {
      ScoreComesFromRecord(records, x);
    }
    AverageBounds(scores, lo, hi);
  }

  lemma ScoreComesFromRecord(records: seq<TrainingProgress>, x: int)
    requires x in CompletedScores(records)
    ensures exists p :: p in records && IsScoredCompletion(p) && p.score.value == x
  {
    var scores := CompletedScores(records);
    var k :| 0 <= k < |scores| && scores[k] == x;
    var p := Filter(records, IsScoredCompletion)[k];
    assert p in Filter(records, IsScoredCompletion);
  }

  // ------------------------------------------------------------ compliance

  datatype LicenseStatus = LicenseValid | LicenseExpired

  datatype ComplianceStatus = Compliant | NonCompliant

  /** `mandatory_training_completion` is the pair (completed, total). */
  datatype ComplianceEntry = ComplianceEntry(
    driver: Driver,
    completedMandatory: nat,
    totalMandatory: nat,
    expiredCertifications: nat,
    licenseStatus: LicenseStatus,
    complianceStatus: ComplianceStatus)

  /** Some module of `mandatory` with this id is mandatory. */
  predicate AnyMandatory(mandatory: seq<TrainingModule>, moduleId: Id)
  {
    exists m :: m in mandatory && m.id == moduleId && m.isMandatory
  }

  /** The completed records of mandatory modules among a driver's records. */
  function CompletedMandatory(records: seq<TrainingProgress>, mandatory: seq<TrainingModule>): (r: seq<TrainingProgress>)
    ensures forall p :: p in r <==> p in records && p.status == Completed && AnyMandatory(mandatory, p.moduleId)
  {
    Filter(records, (p: TrainingProgress) => p.status == Completed && AnyMandatory(mandatory, p.moduleId))
  }

  /** The compliance verdict of one driver. */
  function ComplianceEntryFor(d: Driver, modules: seq<TrainingModule>, progress: seq<TrainingProgress>,
                              certifications: seq<Certification>, today: Day): (e: ComplianceEntry)
    ensures e.driver == d
    ensures e.totalMandatory == |MandatoryModules(modules)|
    ensures e.completedMandatory == |CompletedMandatory(ProgressOfDriver(progress, d.id), MandatoryModules(modules))|
    ensures e.expiredCertifications == |ExpiredCertifications(CertificationsOfDriver(certifications, d.id), today)|
    ensures e.licenseStatus == LicenseExpired <==> d.licenseExpiry < today
    ensures e.complianceStatus == NonCompliant <==>
      e.expiredCertifications > 0 || d.licenseExpiry < today || e.completedMandatory < e.totalMandatory
  {
    var mandatory := MandatoryModules(modules);
    var completed := |CompletedMandatory(ProgressOfDriver(progress, d.id), mandatory)|;
    var total := |mandatory|;
    var expired := |ExpiredCertifications(CertificationsOfDriver(certifications, d.id), today)|;
    var licenseExpired := d.licenseExpiry < today;
    ComplianceEntry(
      d, completed, total, expired,
      if licenseExpired then LicenseExpired else LicenseValid,
      if expired > 0 || licenseExpired || completed < total then NonCompliant else Compliant)
  }

  /** The driver holds a completed record of the module. */
  ghost predicate HasCompleted(progress: seq<TrainingProgress>, driverId: Id, moduleId: Id)
  {
    exists p :: p in progress && p.driverId == driverId && p.moduleId == moduleId && p.status == Completed
  }

  /** With one record per (driver, module) pair and distinct module ids, a
      driver never completes more mandatory modules than exist, and completes
      as many exactly when every mandatory module has a completed record. */
  lemma MandatoryCompletionBound(progress: seq<TrainingProgress>, modules: seq<TrainingModule>, driverId: Id)
    requires Distinct(Pairs(progress)) && Distinct(ModuleIds(modules))
    ensures |CompletedMandatory(ProgressOfDriver(progress, driverId), MandatoryModules(modules))|
         <= |MandatoryModules(modules)|
    ensures |CompletedMandatory(ProgressOfDriver(progress, driverId), MandatoryModules(modules))|
         == |MandatoryModules(modules)|
        <==> forall m :: m in modules && m.isMandatory ==> HasCompleted(progress, driverId, m.id)
  {
    var mandatory := MandatoryModules(modules);
    var done := CompletedMandatory(ProgressOfDriver(progress, driverId), mandatory);
    var doneIds, mandatoryIds := ProgressModuleIds(done), ModuleIds(mandatory);
    CompletedModuleIdsDistinct(progress, driverId, mandatory);
    DistinctCardinality(doneIds);
    MandatoryIdsDistinct(modules);
    DistinctCardinality(mandatoryIds);
    CompletedWithinMandatory(progress, driverId, modules);
    SubsetCardinality(Elements(doneIds), Elements(mandatoryIds));
    AllCompletedIff(progress, driverId, modules);
    if |done| == |mandatory| {
      SubsetSameSize(Elements(doneIds), Elements(mandatoryIds));
    }
    if forall x :: x in mandatoryIds ==> x in doneIds {
      assert Elements(doneIds) == Elements(mandatoryIds);
    }
  }

  /** The completed mandatory records of one driver name distinct modules. */
  lemma CompletedModuleIdsDistinct(progress: seq<TrainingProgress>, driverId: Id, mandatory: seq<TrainingModule>)
    requires Distinct(Pairs(progress))
    ensures Distinct(ProgressModuleIds(CompletedMandatory(ProgressOfDriver(progress, driverId), mandatory)))
  {
    var records := ProgressOfDriver(progress, driverId);
    var done := CompletedMandatory(records, mandatory);
    DistinctPairsDistinctRecords(progress);
    FilterDistinct(progress, (p: TrainingProgress) => p.driverId == driverId);
    FilterDistinct(records, (p: TrainingProgress) => p.status == Completed && AnyMandatory(mandatory, p.moduleId));
    var ids := ProgressModuleIds(done);
    forall i, j | 0 <= i < j < |done| ensures ids[i] != ids[j] {
      assert done[i] in done && done[j] in done;
      if ids[i] == ids[j] {
        PairDetermines(progress, done[i], done[j]);
      }
    }
  }

  /** The mandatory modules have distinct ids. */
  lemma MandatoryIdsDistinct(modules: seq<TrainingModule>)
    requires Distinct(ModuleIds(modules))
    ensures Distinct(ModuleIds(MandatoryModules(modules)))
  {
    var mandatory := MandatoryModules(modules);
    DistinctIdsDistinctModules(modules);
    FilterDistinct(modules, (m: TrainingModule) => m.isMandatory);
    var ids := ModuleIds(mandatory);
    forall i, j | 0 <= i < j < |mandatory| ensures ids[i] != ids[j] {
      assert mandatory[i] in mandatory && mandatory[j] in mandatory;
      if ids[i] == ids[j] {
        IdDetermines(modules, mandatory[i], mandatory[j]);
      }
    }
  }

  /** Every completed mandatory record names a mandatory module. */
  lemma CompletedWithinMandatory(progress: seq<TrainingProgress>, driverId: Id, modules: seq<TrainingModule>)
    ensures Elements(ProgressModuleIds(CompletedMandatory(ProgressOfDriver(progress, driverId), MandatoryModules(modules))))
         <= Elements(ModuleIds(MandatoryModules(modules)))
  {
    var mandatory := MandatoryModules(modules);
    var done := CompletedMandatory(ProgressOfDriver(progress, driverId), mandatory);
    var doneIds := ProgressModuleIds(done);
    forall x | x in doneIds ensures x in ModuleIds(mandatory) {
      var i :| 0 <= i < |doneIds| && doneIds[i] == x;
      assert done[i] in done;
      var m :| m in mandatory && m.id == x && m.isMandatory;
      var k :| 0 <= k < |mandatory| && mandatory[k] == m;
      assert ModuleIds(mandatory)[k] == x;
    }
  }

  /** The completed mandatory records cover the mandatory modules exactly
      when every mandatory module has a completed record of the driver. */
  lemma AllCompletedIff(progress: seq<TrainingProgress>, driverId: Id, modules: seq<TrainingModule>)
    ensures (forall x :: x in ModuleIds(MandatoryModules(modules)) ==>
               x in ProgressModuleIds(CompletedMandatory(ProgressOfDriver(progress, driverId), MandatoryModules(modules))))
        <==> forall m :: m in modules && m.isMandatory ==> HasCompleted(progress, driverId, m.id)
  {
    var records := ProgressOfDriver(progress, driverId);
    var mandatory := MandatoryModules(modules);
    var done := CompletedMandatory(records, mandatory);
    var doneIds := ProgressModuleIds(done);
    var mandatoryIds := ModuleIds(mandatory);
    if forall x :: x in mandatoryIds ==> x in doneIds {
      forall m | m in modules && m.isMandatory ensures HasCompleted(progress, driverId, m.id) {
        assert m in mandatory;
        var k :| 0 <= k < |mandatory| && mandatory[k] == m;
        assert mandatoryIds[k] == m.id;
        assert m.id in doneIds;
        var i :| 0 <= i < |doneIds| && doneIds[i] == m.id;
        assert done[i] in done;
      }
    }
    if forall m :: m in modules && m.isMandatory ==> HasCompleted(progress, driverId, m.id) {
      forall x | x in mandatoryIds ensures x in doneIds {
        var k :| 0 <= k < |mandatoryIds| && mandatoryIds[k] == x;
        assert mandatory[k] in mandatory;
        assert HasCompleted(progress, driverId, x);
        var p :| p in progress && p.driverId == driverId && p.moduleId == x && p.status == Completed;
        assert p in records;
        assert AnyMandatory(mandatory, p.moduleId);
        assert p in done;
        var i :| 0 <= i < |done| && done[i] == p;
        assert doneIds[i] == x;
      }
    }
  }

  /** Under the one-record-per-pair and distinct-module-id invariants a driver
      is compliant exactly when no certification of theirs has expired, the
      license has not expired, and every mandatory module has a completed
      record. */
  lemma ComplianceVerdict(d: Driver, modules: seq<TrainingModule>, progress: seq<TrainingProgress>,
                          certifications: seq<Certification>, today: Day)
    requires Distinct(Pairs(progress)) && Distinct(ModuleIds(modules))
    ensures var e := ComplianceEntryFor(d, modules, progress, certifications, today);
      e.completedMandatory <= e.totalMandatory
      && (e.complianceStatus == Compliant <==>
            (forall c :: c in certifications && c.driverId == d.id ==> c.expiryDate >= today)
            && today <= d.licenseExpiry
            && forall m :: m in modules && m.isMandatory ==> HasCompleted(progress, d.id, m.id))
  {
    MandatoryCompletionBound(progress, modules, d.id);
    var mine := CertificationsOfDriver(certifications, d.id);
    var expired := ExpiredCertifications(mine, today);
    if expired != [] {
      assert expired[0] in expired;
    }
  }

  function ProgressModuleIds(ps: seq<TrainingProgress>): (r: seq<Id>)
    ensures |r| == |ps| && forall i :: 0 <= i < |ps| ==> r[i] == ps[i].moduleId
  {
    seq(|ps|, i requires 0 <= i < |ps| => ps[i].moduleId)
  }

  lemma DistinctPairsDistinctRecords(ps: seq<TrainingProgress>)
    requires Distinct(Pairs(ps))
    ensures Distinct(ps)
  {
    forall i, j | 0 <= i < j < |ps| ensures ps[i] != ps[j] {
      assert Pairs(ps)[i] != Pairs(ps)[j];
    }
  }

  lemma PairDetermines(ps: seq<TrainingProgress>, p: TrainingProgress, q: TrainingProgress)
    requires Distinct(Pairs(ps)) && p in ps && q in ps && PairOf(p) == PairOf(q)
    ensures p == q
  {
    var i :| 0 <= i < |ps| && ps[i] == p;
    var j :| 0 <= j < |ps| && ps[j] == q;
    assert Pairs(ps)[i] == Pairs(ps)[j];
  }

  lemma DistinctIdsDistinctModules(ms: seq<TrainingModule>)
    requires Distinct(ModuleIds(ms))
    ensures Distinct(ms)
  {
    forall i, j | 0 <= i < j < |ms| ensures ms[i] != ms[j] {
      assert ModuleIds(ms)[i] != ModuleIds(ms)[j];
    }
  }

  lemma IdDetermines(ms: seq<TrainingModule>, m: TrainingModule, n: TrainingModule)
    requires Distinct(ModuleIds(ms)) && m in ms && n in ms && m.id == n.id
    ensures m == n
  {
    var i :| 0 <= i < |ms| && ms[i] == m;
    var j :| 0 <= j < |ms| && ms[j] == n;
    assert ModuleIds(ms)[i] == ModuleIds(ms)[j];
  }

  lemma SubsetCardinality<T>(a: set<T>, b: set<T>)
    requires a <= b
    ensures |a| <= |b|
  {
    assert b == a + (b - a);
  }

  // ------------------------------------------------ expiring certifications

  /** A row of the expiring-certification list. */
  datatype ExpiringCertification = ExpiringCertification(certification: Certification, driverName: string)

  /** "first last" of the driver with that id, active or not, if there is one. */
  function DriverName(drivers: seq<Driver>, driverId: Id): (r: Option<string>)
    ensures r.None? <==> driverId !in DriverIds(drivers)
    ensures r.Some? ==> exists d :: d in drivers && d.id == driverId && r.value == d.firstName + " " + d.lastName
  {
    match IndexOf(DriverIds(drivers), driverId)
    case None => None
    case Some(k) => Some(drivers[k].firstName + " " + drivers[k].lastName)
  }

  /** The certifications whose driver exists, active or not. */
  function WithKnownDriver(cs: seq<Certification>, drivers: seq<Driver>): (r: seq<Certification>)
    ensures forall c :: c in r <==> c in cs && c.driverId in DriverIds(drivers)
  {
    Filter(cs, (c: Certification) => c.driverId in DriverIds(drivers))
  }

  /** The rows built from a selection of certifications, in order: each with
      its status recomputed for `today` and its driver's name, dropping those
      whose driver does not exist. */
  function ExpiringRows(cs: seq<Certification>, drivers: seq<Driver>, today: Day): (r: seq<ExpiringCertification>)
    ensures |r| == |WithKnownDriver(cs, drivers)| <= |cs|
    ensures forall k :: 0 <= k < |r| ==>
      r[k].certification == Refreshed(WithKnownDriver(cs, drivers)[k], today)
      && DriverName(drivers, WithKnownDriver(cs, drivers)[k].driverId) == Some(r[k].driverName)
  {
    var known := WithKnownDriver(cs, drivers);
    seq(|known|, i requires 0 <= i < |known| =>
      assert known[i] in known;
      ExpiringCertification(Refreshed(known[i], today), DriverName(drivers, known[i].driverId).value))
  }

  /** The compliance verdicts of the drivers `ds`, one per driver, in order. */
  function ComplianceEntries(ds: seq<Driver>, modules: seq<TrainingModule>, progress: seq<TrainingProgress>,
                             certifications: seq<Certification>, today: Day): (r: seq<ComplianceEntry>)
    ensures |r| == |ds|
  {
    if ds == [] then []
    else
      var init := ComplianceEntries(ds[..|ds| - 1], modules, progress, certifications, today);
      init + [ComplianceEntryFor(ds[|ds| - 1], modules, progress, certifications, today)]
  }

  /** Entry `k` of the report is the verdict on driver `k`. */
  lemma {:induction false} ComplianceEntriesAt(ds: seq<Driver>, modules: seq<TrainingModule>,
                                               progress: seq<TrainingProgress>,
                                               certifications: seq<Certification>, today: Day)
    ensures forall k :: 0 <= k < |ds| ==>
      ComplianceEntries(ds, modules, progress, certifications, today)[k]
        == ComplianceEntryFor(ds[k], modules, progress, certifications, today)
  {
    if ds != [] {
      var init := ds[..|ds| - 1];
      ComplianceEntriesAt(init, modules, progress, certifications, today);
      forall k | 0 <= k < |ds|
        ensures ComplianceEntries(ds, modules, progress, certifications, today)[k]
             == ComplianceEntryFor(ds[k], modules, progress, certifications, today)
      {
        if k < |init| {
          assert ds[k] == init[k];
        }
      }
    }
  }

  /** Adding one certification to the selection adds its row, if its driver exists. */
  lemma ExpiringRowsSnoc(cs: seq<Certification>, c: Certification, drivers: seq<Driver>, today: Day)
    ensures ExpiringRows(cs + [c], drivers, today)
         == ExpiringRows(cs, drivers, today)
          + match DriverName(drivers, c.driverId)
            case None => []
            case Some(name) => [ExpiringCertification(Refreshed(c, today), name)]
  {
    FilterAppend(cs, [c], (c: Certification) => c.driverId in DriverIds(drivers));
  }

  /** Certifications due within 30 days, including those already expired. */
  function DueCertifications(cs: seq<Certification>, today: Day): (r: seq<Certification>)
    ensures forall c :: c in r <==> c in cs && c.expiryDate <= today + ExpiringWindow
  {
    Filter(cs, (c: Certification) => c.expiryDate <= today + ExpiringWindow)
  }

  /** Every row of the expiring list is for a certification that is not
      Active today, and its status is the one the status rule gives. */
  lemma ExpiringRowsAreNotActive(cs: seq<Certification>, drivers: seq<Driver>, today: Day)
    ensures forall e :: e in ExpiringRows(DueCertifications(cs, today), drivers, today) ==>
      e.certification.status != Active
      && e.certification.status == StatusOf(e.certification.expiryDate, today)
      && e.certification.driverId in DriverIds(drivers)
    ensures forall c :: c in cs && c.expiryDate <= today + ExpiringWindow && c.driverId in DriverIds(drivers) ==>
      exists e :: e in ExpiringRows(DueCertifications(cs, today), drivers, today) && e.certification == Refreshed(c, today)
  {
    var due := DueCertifications(cs, today);
    var known := WithKnownDriver(due, drivers);
    var rows := ExpiringRows(due, drivers, today);
    forall e | e in rows
      ensures e.certification.status != Active
      ensures e.certification.status == StatusOf(e.certification.expiryDate, today)
      ensures e.certification.driverId in DriverIds(drivers)
    {
      var i :| 0 <= i < |rows| && rows[i] == e;
      assert known[i] in known;
      StatusByDate(known[i].expiryDate, today);
    }
    forall c | c in cs && c.expiryDate <= today + ExpiringWindow && c.driverId in DriverIds(drivers)
      ensures exists e :: e in rows && e.certification == Refreshed(c, today)
    {
      assert c in known;
      var i :| 0 <= i < |known| && known[i] == c;
      assert rows[i] in rows;
    }
  }
}
