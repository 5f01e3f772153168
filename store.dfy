/** The document store and the handlers that write to it or loop over it.
    Each table is a sequence of documents in insertion order; `update_one`
    on an id rewrites the one document with that id in place. Fresh ids and
    the current day are parameters. */
module Store {
  import opened Common
  import opened CertStatus
  import opened Records
  import opened Queries
  import opened Analytics
  import opened Seeding
  import opened Catalog

  class Store {
    var drivers: seq<Driver>
    var modules: seq<TrainingModule>
    var progress: seq<TrainingProgress>
    var certifications: seq<Certification>

    /** Ids are unique in every table, and no (driver, module) pair has two
        progress records. Module names are not required to be unique. */
    ghost predicate Valid()
      reads this
    {
      && Distinct(DriverIds(drivers))
      && Distinct(ModuleIds(modules))
      && Distinct(ProgressIds(progress))
      && Distinct(Pairs(progress))
      && Distinct(CertificationIds(certifications))
    }

    constructor ()
      ensures Valid()
      ensures drivers == [] && modules == [] && progress == [] && certifications == []
    {
      drivers, modules, progress, certifications := [], [], [], [];
    }

    // ---------------------------------------------------------- drivers

    /** POST /drivers: a new driver is active. */
    method CreateDriver(id: Id, req: DriverCreate) returns (d: Driver)
      requires Valid() && id !in DriverIds(drivers)
      modifies this
      ensures Valid()
      ensures d == NewDriver(id, req) && d.isActive
      ensures drivers == old(drivers) + [d]
      ensures GetDriver(drivers, id) == Ok(d)
      ensures modules == old(modules) && progress == old(progress) && certifications == old(certifications)
    {
      d := NewDriver(id, req);
      assert DriverIds(drivers + [d]) == DriverIds(drivers) + [id];
      AppendDistinct(DriverIds(drivers), id);
      drivers := drivers + [d];
      GetDriverFindsActive(drivers, |drivers| - 1);
    }

    /** PUT /drivers/{id}: overwrites the supplied fields of the driver with
        that id, active or not (so it can also reactivate one). */
    method UpdateDriver(id: Id, u: DriverUpdate) returns (r: Result<Driver>)
      requires Valid()
      modifies this
      ensures Valid()
      ensures r.Err? <==> id !in DriverIds(old(drivers))
      ensures r.Err? ==> r.error == NotFound && drivers == old(drivers)
      ensures r.Ok? ==>
        (exists i :: 0 <= i < |old(drivers)| && old(drivers)[i].id == id
          && drivers == old(drivers)[i := ApplyDriverUpdate(old(drivers)[i], u)]
          && r.value == drivers[i])
      ensures modules == old(modules) && progress == old(progress) && certifications == old(certifications)
    {
      match IndexOf(DriverIds(drivers), id)
      case None =>
        r := Err(NotFound);
      case Some(i) =>
        var updated := ApplyDriverUpdate(drivers[i], u);
        assert DriverIds(drivers[i := updated]) == DriverIds(drivers);
        drivers := drivers[i := updated];
        r := Ok(updated);
    }

    /** DELETE /drivers/{id}: a soft delete. The record stays, inactive; it
        disappears from the driver listing and from lookups by id. */
    method DeleteDriver(id: Id) returns (r: Result<()>)
      requires Valid()
      modifies this
      ensures Valid()
      ensures r.Err? <==> id !in DriverIds(old(drivers))
      ensures r.Err? ==> r.error == NotFound && drivers == old(drivers)
      ensures r.Ok? ==>
        (exists i :: 0 <= i < |old(drivers)| && old(drivers)[i].id == id
          && drivers == old(drivers)[i := old(drivers)[i].(isActive := false)])
      ensures r.Ok? ==> id in DriverIds(drivers) && |drivers| == |old(drivers)|
      ensures r.Ok? ==> GetDriver(drivers, id) == Err(NotFound)
      ensures r.Ok? ==> forall d :: d in ActiveDrivers(drivers) ==> d.id != id
      ensures modules == old(modules) && progress == old(progress) && certifications == old(certifications)
    {
      match IndexOf(DriverIds(drivers), id)
      case None =>
        r := Err(NotFound);
      case Some(i) =>
        var inactive := drivers[i].(isActive := false);
        assert DriverIds(drivers[i := inactive]) == DriverIds(drivers);
        drivers := drivers[i := inactive];
        GetDriverFindsActive(drivers, i);
        r := Ok(());
        forall d | d in ActiveDrivers(drivers) ensures d.id != id {
          var j :| 0 <= j < |drivers| && drivers[j] == d;
          assert DriverIds(drivers)[j] == d.id;
        }
    }

    // ---------------------------------------------------------- modules

    /** POST /training-modules: no check that the name is new. */
    method CreateTrainingModule(id: Id, req: ModuleCreate) returns (m: TrainingModule)
      requires Valid() && id !in ModuleIds(modules)
      modifies this
      ensures Valid()
      ensures m == NewModule(id, req) && modules == old(modules) + [m]
      ensures drivers == old(drivers) && progress == old(progress) && certifications == old(certifications)
    {
      m := NewModule(id, req);
      assert ModuleIds(modules + [m]) == ModuleIds(modules) + [id];
      AppendDistinct(ModuleIds(modules), id);
      modules := modules + [m];
    }

    /** POST /training-modules/initialize-defaults: seeds the default catalog. */
    method InitializeDefaultModules(ids: seq<Id>) returns (created: seq<TrainingModule>)
      requires Valid()
      requires |ids| == |DefaultCatalog| && Distinct(ids)
      requires forall id :: id in ids ==> id !in ModuleIds(modules)
      modifies this
      ensures Valid()
      ensures created == Seeded(old(modules), DefaultCatalog, ids)
      ensures modules == old(modules) + created
      ensures Elements(ModuleNames(created))
           == Elements(CatalogNames(DefaultCatalog)) - Elements(ModuleNames(old(modules)))
      ensures forall c :: c in DefaultCatalog ==> c.name in ModuleNames(modules)
      ensures (forall c :: c in DefaultCatalog ==> c.name in ModuleNames(old(modules))) ==> created == []
      ensures drivers == old(drivers) && progress == old(progress) && certifications == old(certifications)
    {
      created := SeedCatalog(DefaultCatalog, ids);
    }

    /** The loop of the seeding handler over a catalog: each entry whose name
        is not yet present is added as a module, and the added ones are
        returned. `ids[k]` is the id given to entry `k` if it is created. */
    method SeedCatalog(catalog: seq<ModuleCreate>, ids: seq<Id>) returns (created: seq<TrainingModule>)
      requires Valid()
      requires |ids| == |catalog| && Distinct(ids)
      requires forall id :: id in ids ==> id !in ModuleIds(modules)
      modifies this
      ensures Valid()
      ensures created == Seeded(old(modules), catalog, ids)
      ensures modules == old(modules) + created
      ensures Elements(ModuleNames(created))
           == Elements(CatalogNames(catalog)) - Elements(ModuleNames(old(modules)))
      ensures forall c :: c in catalog ==> c.name in ModuleNames(modules)
      ensures (forall c :: c in catalog ==> c.name in ModuleNames(old(modules))) ==> created == []
      ensures drivers == old(drivers) && progress == old(progress) && certifications == old(certifications)
    {
      created := SeedModules(modules, catalog, ids);
      modules := modules + created;
      SeededNames(old(modules), catalog, ids);
      SeedingOutcome(old(modules), catalog, ids);
    }

    // --------------------------------------------------------- progress

    /** POST /training-progress: refused with Conflict when the driver already
        has a record for the module; otherwise one record is appended. */
    method CreateProgress(id: Id, req: ProgressCreate) returns (r: Result<TrainingProgress>)
      requires Valid() && id !in ProgressIds(progress)
      modifies this
      ensures Valid()
      ensures r.Err? <==> (req.driverId, req.moduleId) in Pairs(old(progress))
      ensures r.Err? ==> r.error == Conflict && progress == old(progress)
      ensures r.Ok? ==> r.value == NewProgress(id, req) && progress == old(progress) + [r.value]
      ensures r.Ok? ==>
        r.value.attempts == 0 && r.value.status == (if req.status.Some? then req.status.value else NotStarted)
      ensures drivers == old(drivers) && modules == old(modules) && certifications == old(certifications)
    {
      var pair := (req.driverId, req.moduleId);
      if pair in Pairs(progress) {
        r := Err(Conflict);
      } else {
        var p := NewProgress(id, req);
        assert ProgressIds(progress + [p]) == ProgressIds(progress) + [id];
        assert Pairs(progress + [p]) == Pairs(progress) + [pair];
        AppendDistinct(ProgressIds(progress), id);
        AppendDistinct(Pairs(progress), pair);
        progress := progress + [p];
        r := Ok(p);
      }
    }

    /** PUT /training-progress/{id}: first the attempts counter is increased
        when a status is supplied, then the supplied fields (and the date
        filled in from `today`) are written. */
    method UpdateProgress(id: Id, u: ProgressUpdate, today: Day) returns (r: Result<TrainingProgress>)
      requires Valid()
      modifies this
      ensures Valid()
      ensures r.Err? <==> id !in ProgressIds(old(progress))
      ensures r.Err? ==> r.error == NotFound && progress == old(progress)
      ensures r.Ok? ==>
        (exists i :: 0 <= i < |old(progress)| && old(progress)[i].id == id
          && progress == old(progress)[i := UpdatedProgress(old(progress)[i], u, today)]
          && r.value == progress[i])
      ensures drivers == old(drivers) && modules == old(modules) && certifications == old(certifications)
    {
      var effective := EffectiveUpdate(u, today);
      match IndexOf(ProgressIds(progress), id)
      case None =>
        r := Err(NotFound);
      case Some(i) =>
        ghost var before := progress[i];
        if effective.status.Some? {
          progress := progress[i := progress[i].(attempts := progress[i].attempts + 1)];
        }
        progress := progress[i := SetProgressFields(progress[i], effective)];
        assert progress[i] == UpdatedProgress(before, u, today);
        assert ProgressIds(progress) == ProgressIds(old(progress));
        assert Pairs(progress) == Pairs(old(progress));
        r := Ok(progress[i]);
    }

    // --------------------------------------------------- certifications

    /** POST /certifications: the status is derived on the day of creation. */
    method CreateCertification(id: Id, req: CertificationCreate, today: Day) returns (c: Certification)
      requires Valid() && id !in CertificationIds(certifications)
      modifies this
      ensures Valid()
      ensures c == NewCertification(id, req, today) && certifications == old(certifications) + [c]
      ensures drivers == old(drivers) && modules == old(modules) && progress == old(progress)
    {
      c := NewCertification(id, req, today);
      assert CertificationIds(certifications + [c]) == CertificationIds(certifications) + [id];
      AppendDistinct(CertificationIds(certifications), id);
      certifications := certifications + [c];
    }

    /** GET /certifications: the selected certifications, each with its
        status recomputed for `today`. */
    method GetCertifications(driverId: Option<Id>, today: Day) returns (r: seq<Certification>)
      ensures r == RefreshedAll(CertificationQuery(certifications, driverId), today)
      ensures forall c :: c in r ==>
        c.status == StatusOf(c.expiryDate, today) && (Applies(driverId) ==> c.driverId == driverId.value)
    {
      var selected := CertificationQuery(certifications, driverId);
      r := [];
      for i := 0 to |selected|
        invariant |r| == i
        invariant forall k :: 0 <= k < i ==> r[k] == Refreshed(selected[k], today)
      {
        r := r + [Refreshed(selected[i], today)];
      }
    }

    /** GET /certifications/expiring: every certification due within 30 days
        (already expired ones included) whose driver exists, with its status
        recomputed and its driver's name. */
    method ExpiringCertificationList(today: Day) returns (r: seq<ExpiringCertification>)
      ensures r == ExpiringRows(DueCertifications(certifications, today), drivers, today)
    {
      var due := DueCertifications(certifications, today);
      r := [];
      for i := 0 to |due|
        invariant r == ExpiringRows(due[..i], drivers, today)
      {
        assert due[..i + 1] == due[..i] + [due[i]];
        ExpiringRowsSnoc(due[..i], due[i], drivers, today);
        match DriverName(drivers, due[i].driverId)
        case Some(name) =>
          r := r + [ExpiringCertification(Refreshed(due[i], today), name)];
        case None =>
      }
      assert due[..|due|] == due;
    }

    // ------------------------------------------------------- compliance

    /** GET /analytics/compliance-report: one verdict per active driver, in
        listing order. */
    method ComplianceReport(today: Day) returns (r: seq<ComplianceEntry>)
      requires Valid()
      ensures r == ComplianceEntries(ActiveDrivers(drivers), modules, progress, certifications, today)
      ensures |r| == |ActiveDrivers(drivers)|
      ensures forall k :: 0 <= k < |r| ==>
        r[k] == ComplianceEntryFor(ActiveDrivers(drivers)[k], modules, progress, certifications, today)
      ensures forall k :: 0 <= k < |r| ==>
        r[k].driver in drivers && r[k].driver.isActive && r[k].completedMandatory <= r[k].totalMandatory
    {
      var active := ActiveDrivers(drivers);
      r := ComplianceEntryList(active, modules, progress, certifications, today);
      ComplianceEntriesAt(active, modules, progress, certifications, today);
      forall k | 0 <= k < |r|
        ensures r[k].driver in drivers && r[k].driver.isActive && r[k].completedMandatory <= r[k].totalMandatory
      {
        assert active[k] in active;
        MandatoryCompletionBound(progress, modules, active[k].id);
      }
    }
  }

  /** The loop of the compliance report: the verdict on each driver of `ds`,
      appended in order. */
  method ComplianceEntryList(ds: seq<Driver>, modules: seq<TrainingModule>, progress: seq<TrainingProgress>,
                             certifications: seq<Certification>, today: Day)
    returns (r: seq<ComplianceEntry>)
    ensures r == ComplianceEntries(ds, modules, progress, certifications, today)
  {
    r := [];
    for i := 0 to |ds|
      invariant r == ComplianceEntries(ds[..i], modules, progress, certifications, today)
    {
      assert ds[..i + 1][..i] == ds[..i];
      r := r + [ComplianceEntryFor(ds[i], modules, progress, certifications, today)];
    }
    assert ds[..|ds|] == ds;
  }
}
