/** The four kinds of stored document (driver, training module, training
    progress, certification), the request bodies that create and update them,
    and the rules that turn a request into a document. Identifiers are opaque
    strings supplied by the caller; creation and update timestamps are not
    modelled. */
module Records {
  import opened Common
  import opened CertStatus

  type Id = string

  datatype LicenseClass = ClassA | ClassB | ClassC | CdlClassA | CdlClassB

  datatype TrainingStatus = NotStarted | InProgress | Completed | Expired | Failed

  datatype ModuleType =
    | Safety | DefensiveDriving | VehicleInspection | Hazmat
    | BackingManeuvers | CargoHandling | HoursOfService | FatigueManagement

  // ---------------------------------------------------------------- drivers

  datatype Driver = Driver(
    id: Id,
    employeeId: string,
    firstName: string,
    lastName: string,
    email: string,
    phone: string,
    hireDate: Day,
    licenseNumber: string,
    licenseClass: LicenseClass,
    licenseExpiry: Day,
    dateOfBirth: Day,
    address: string,
    emergencyContactName: string,
    emergencyContactPhone: string,
    isActive: bool)

  datatype DriverCreate = DriverCreate(
    employeeId: string,
    firstName: string,
    lastName: string,
    email: string,
    phone: string,
    hireDate: Day,
    licenseNumber: string,
    licenseClass: LicenseClass,
    licenseExpiry: Day,
    dateOfBirth: Day,
    address: string,
    emergencyContactName: string,
    emergencyContactPhone: string)

  /** Every field optional; `None` is a JSON null or an absent field. The
      employee id, hire date and date of birth cannot be updated. */
  datatype DriverUpdate = DriverUpdate(
    firstName: Option<string>,
    lastName: Option<string>,
    email: Option<string>,
    phone: Option<string>,
    licenseNumber: Option<string>,
    licenseClass: Option<LicenseClass>,
    licenseExpiry: Option<Day>,
    address: Option<string>,
    emergencyContactName: Option<string>,
    emergencyContactPhone: Option<string>,
    isActive: Option<bool>)

  function NewDriver(id: Id, req: DriverCreate): (d: Driver)
    ensures d.id == id && d.isActive
    ensures d.employeeId == req.employeeId
    ensures d.firstName == req.firstName && d.lastName == req.lastName
    ensures d.email == req.email && d.phone == req.phone
    ensures d.hireDate == req.hireDate && d.dateOfBirth == req.dateOfBirth
    ensures d.licenseNumber == req.licenseNumber && d.licenseClass == req.licenseClass
    ensures d.licenseExpiry == req.licenseExpiry
    ensures d.address == req.address
    ensures d.emergencyContactName == req.emergencyContactName
    ensures d.emergencyContactPhone == req.emergencyContactPhone
  {
    Driver(id, req.employeeId, req.firstName, req.lastName, req.email, req.phone,
           req.hireDate, req.licenseNumber, req.licenseClass, req.licenseExpiry,
           req.dateOfBirth, req.address, req.emergencyContactName,
           req.emergencyContactPhone, true)
  }

  /** The `$set` of the supplied (non-null) fields of a driver update. */
  function ApplyDriverUpdate(d: Driver, u: DriverUpdate): (r: Driver)
    ensures r.id == d.id && r.employeeId == d.employeeId
    ensures r.hireDate == d.hireDate && r.dateOfBirth == d.dateOfBirth
    ensures r.firstName == (if u.firstName.Some? then u.firstName.value else d.firstName)
    ensures r.lastName == (if u.lastName.Some? then u.lastName.value else d.lastName)
    ensures r.email == (if u.email.Some? then u.email.value else d.email)
    ensures r.phone == (if u.phone.Some? then u.phone.value else d.phone)
    ensures r.licenseNumber == (if u.licenseNumber.Some? then u.licenseNumber.value else d.licenseNumber)
    ensures r.licenseClass == (if u.licenseClass.Some? then u.licenseClass.value else d.licenseClass)
    ensures r.licenseExpiry == (if u.licenseExpiry.Some? then u.licenseExpiry.value else d.licenseExpiry)
    ensures r.address == (if u.address.Some? then u.address.value else d.address)
    ensures r.emergencyContactName
         == (if u.emergencyContactName.Some? then u.emergencyContactName.value else d.emergencyContactName)
    ensures r.emergencyContactPhone
         == (if u.emergencyContactPhone.Some? then u.emergencyContactPhone.value else d.emergencyContactPhone)
    ensures r.isActive == (if u.isActive.Some? then u.isActive.value else d.isActive)
    ensures u == NoDriverChange() ==> r == d
  {
    d.(firstName := Merge(d.firstName, u.firstName),
       lastName := Merge(d.lastName, u.lastName),
       email := Merge(d.email, u.email),
       phone := Merge(d.phone, u.phone),
       licenseNumber := Merge(d.licenseNumber, u.licenseNumber),
       licenseClass := Merge(d.licenseClass, u.licenseClass),
       licenseExpiry := Merge(d.licenseExpiry, u.licenseExpiry),
       address := Merge(d.address, u.address),
       emergencyContactName := Merge(d.emergencyContactName, u.emergencyContactName),
       emergencyContactPhone := Merge(d.emergencyContactPhone, u.emergencyContactPhone),
       isActive := Merge(d.isActive, u.isActive))
  }

  /** An update body with every field null. */
  function NoDriverChange(): DriverUpdate
  {
    DriverUpdate(None, None, None, None, None, None, None, None, None, None, None)
  }

  /** Sending the same driver update twice has the effect of sending it once. */
  lemma DriverUpdateIdempotent(d: Driver, u: DriverUpdate)
    ensures ApplyDriverUpdate(ApplyDriverUpdate(d, u), u) == ApplyDriverUpdate(d, u)
  {
  }

  // --------------------------------------------------------- training modules

  datatype TrainingModule = TrainingModule(
    id: Id,
    name: string,
    description: string,
    moduleType: ModuleType,
    durationHours: real,
    requiredScore: int,
    isMandatory: bool,
    prerequisites: seq<Id>)

  /** `None` fields take the request model's defaults. */
  datatype ModuleCreate = ModuleCreate(
    name: string,
    description: string,
    moduleType: ModuleType,
    durationHours: real,
    requiredScore: Option<int>,
    isMandatory: Option<bool>,
    prerequisites: Option<seq<Id>>)

  const DefaultRequiredScore: int := 80

  function NewModule(id: Id, req: ModuleCreate): (m: TrainingModule)
    ensures m.id == id && m.name == req.name && m.description == req.description
    ensures m.moduleType == req.moduleType && m.durationHours == req.durationHours
    ensures req.requiredScore.None? ==> m.requiredScore == DefaultRequiredScore
    ensures req.requiredScore.Some? ==> m.requiredScore == req.requiredScore.value
    ensures req.isMandatory.None? ==> m.isMandatory
    ensures req.isMandatory.Some? ==> m.isMandatory == req.isMandatory.value
    ensures req.prerequisites.None? ==> m.prerequisites == []
    ensures req.prerequisites.Some? ==> m.prerequisites == req.prerequisites.value
  {
    TrainingModule(id, req.name, req.description, req.moduleType, req.durationHours,
                   Merge(DefaultRequiredScore, req.requiredScore),
                   Merge(true, req.isMandatory),
                   Merge([], req.prerequisites))
  }

  // ------------------------------------------------------- training progress

  datatype TrainingProgress = TrainingProgress(
    id: Id,
    driverId: Id,
    moduleId: Id,
    status: TrainingStatus,
    startDate: Option<Day>,
    completionDate: Option<Day>,
    score: Option<int>,
    attempts: nat,
    instructorNotes: Option<string>)

  /** `status: None` takes the default, not started. */
  datatype ProgressCreate = ProgressCreate(driverId: Id, moduleId: Id, status: Option<TrainingStatus>)

  datatype ProgressUpdate = ProgressUpdate(
    status: Option<TrainingStatus>,
    startDate: Option<Day>,
    completionDate: Option<Day>,
    score: Option<int>,
    instructorNotes: Option<string>)

  /** The natural key of a progress record: one record per (driver, module). */
  function PairOf(p: TrainingProgress): (Id, Id)
  {
    (p.driverId, p.moduleId)
  }

  function NewProgress(id: Id, req: ProgressCreate): (p: TrainingProgress)
    ensures p.id == id && PairOf(p) == (req.driverId, req.moduleId)
    ensures p.status == (if req.status.Some? then req.status.value else NotStarted)
    ensures p.attempts == 0
    ensures p.startDate.None? && p.completionDate.None? && p.score.None? && p.instructorNotes.None?
  {
    TrainingProgress(id, req.driverId, req.moduleId, Merge(NotStarted, req.status),
                     None, None, None, 0, None)
  }

  /** The fields the service actually writes: the supplied ones plus the
      date it fills in from `today` (completing sets the completion date,
      starting sets the start date, unless the request carries one). */
  function EffectiveUpdate(u: ProgressUpdate, today: Day): (r: ProgressUpdate)
    ensures r.status == u.status && r.score == u.score && r.instructorNotes == u.instructorNotes
    ensures u.completionDate.Some? ==> r.completionDate == u.completionDate
    ensures u.startDate.Some? ==> r.startDate == u.startDate
    ensures u.status == Some(Completed) ==> r.completionDate.Some?
    ensures u.status == Some(InProgress) ==> r.startDate.Some?
    ensures r.completionDate != u.completionDate ==> r.completionDate == Some(today) && u.status == Some(Completed)
    ensures r.startDate != u.startDate ==> r.startDate == Some(today) && u.status == Some(InProgress)
  {
    u.(completionDate := if u.status == Some(Completed) && u.completionDate.None? then Some(today) else u.completionDate,
       startDate := if u.status == Some(InProgress) && u.startDate.None? then Some(today) else u.startDate)
  }

  /** Writes the fields of an (effective) update into a record; absent fields
      keep their stored value. */
  function SetProgressFields(p: TrainingProgress, e: ProgressUpdate): TrainingProgress
  {
    p.(status := Merge(p.status, e.status),
       startDate := if e.startDate.Some? then e.startDate else p.startDate,
       completionDate := if e.completionDate.Some? then e.completionDate else p.completionDate,
       score := if e.score.Some? then e.score else p.score,
       instructorNotes := if e.instructorNotes.Some? then e.instructorNotes else p.instructorNotes)
  }

  /** The record after a progress update: the `$inc` of the attempts when a
      status is supplied, then the `$set` of the effective update. */
  function UpdatedProgress(p: TrainingProgress, u: ProgressUpdate, today: Day): (r: TrainingProgress)
    ensures r.id == p.id && PairOf(r) == PairOf(p)
    ensures r.attempts == p.attempts + (if u.status.Some? then 1 else 0)
    ensures r.status == (if u.status.Some? then u.status.value else p.status)
    ensures u.completionDate.Some? ==> r.completionDate == u.completionDate
    ensures u.completionDate.None? && u.status == Some(Completed) ==> r.completionDate == Some(today)
    ensures u.completionDate.None? && u.status != Some(Completed) ==> r.completionDate == p.completionDate
    ensures u.startDate.Some? ==> r.startDate == u.startDate
    ensures u.startDate.None? && u.status == Some(InProgress) ==> r.startDate == Some(today)
    ensures u.startDate.None? && u.status != Some(InProgress) ==> r.startDate == p.startDate
    ensures r.score == (if u.score.Some? then u.score else p.score)
    ensures r.instructorNotes == (if u.instructorNotes.Some? then u.instructorNotes else p.instructorNotes)
  {
    var e := EffectiveUpdate(u, today);
    var counted := if e.status.Some? then p.(attempts := p.attempts + 1) else p;
    SetProgressFields(counted, e)
  }

  // ----------------------------------------------------------- certifications

  /** `status` is the value derived on the day the certification was created. */
  datatype Certification = Certification(
    id: Id,
    driverId: Id,
    certificationName: string,
    certificationType: string,
    issueDate: Day,
    expiryDate: Day,
    issuingAuthority: string,
    certificateNumber: string,
    status: CertificationStatus)

  datatype CertificationCreate = CertificationCreate(
    driverId: Id,
    certificationName: string,
    certificationType: string,
    issueDate: Day,
    expiryDate: Day,
    issuingAuthority: string,
    certificateNumber: string)

  function NewCertification(id: Id, req: CertificationCreate, today: Day): (c: Certification)
    ensures c.id == id && c.driverId == req.driverId && c.expiryDate == req.expiryDate
    ensures c.certificationName == req.certificationName && c.certificationType == req.certificationType
    ensures c.issueDate == req.issueDate && c.issuingAuthority == req.issuingAuthority
    ensures c.certificateNumber == req.certificateNumber
    ensures c.status == CertificationStatus.Expired <==> req.expiryDate < today
    ensures c.status == ExpiringSoon <==> today <= req.expiryDate <= today + ExpiringWindow
    ensures c.status == Active <==> req.expiryDate > today + ExpiringWindow
  {
    Certification(id, req.driverId, req.certificationName, req.certificationType,
                  req.issueDate, req.expiryDate, req.issuingAuthority,
                  req.certificateNumber, StatusOf(req.expiryDate, today))
  }

  /** The certification as every listing returns it: status recomputed for `today`. */
  function Refreshed(c: Certification, today: Day): (r: Certification)
    ensures r.status == CertificationStatus.Expired <==> c.expiryDate < today
    ensures r.status == ExpiringSoon <==> today <= c.expiryDate <= today + ExpiringWindow
    ensures r.(status := c.status) == c
  {
    c.(status := StatusOf(c.expiryDate, today))
  }

  /** Every certification of a listing, each with its status recomputed for `today`. */
  function RefreshedAll(cs: seq<Certification>, today: Day): (r: seq<Certification>)
    ensures |r| == |cs|
    ensures forall k :: 0 <= k < |r| ==>
      r[k].(status := cs[k].status) == cs[k] && r[k].status == StatusOf(cs[k].expiryDate, today)
  {
    seq(|cs|, k requires 0 <= k < |cs| => Refreshed(cs[k], today))
  }

  // ------------------------------------------------------------ key columns

  function DriverIds(ds: seq<Driver>): (r: seq<Id>)
    ensures |r| == |ds| && forall i :: 0 <= i < |ds| ==> r[i] == ds[i].id
  {
    seq(|ds|, i requires 0 <= i < |ds| => ds[i].id)
  }

  function ModuleIds(ms: seq<TrainingModule>): (r: seq<Id>)
    ensures |r| == |ms| && forall i :: 0 <= i < |ms| ==> r[i] == ms[i].id
  {
    seq(|ms|, i requires 0 <= i < |ms| => ms[i].id)
  }

  function ModuleNames(ms: seq<TrainingModule>): (r: seq<string>)
    ensures |r| == |ms| && forall i :: 0 <= i < |ms| ==> r[i] == ms[i].name
  {
    seq(|ms|, i requires 0 <= i < |ms| => ms[i].name)
  }

  function ProgressIds(ps: seq<TrainingProgress>): (r: seq<Id>)
    ensures |r| == |ps| && forall i :: 0 <= i < |ps| ==> r[i] == ps[i].id
  {
    seq(|ps|, i requires 0 <= i < |ps| => ps[i].id)
  }

  function Pairs(ps: seq<TrainingProgress>): (r: seq<(Id, Id)>)
    ensures |r| == |ps| && forall i :: 0 <= i < |ps| ==> r[i] == PairOf(ps[i])
  {
    seq(|ps|, i requires 0 <= i < |ps| => PairOf(ps[i]))
  }

  function CertificationIds(cs: seq<Certification>): (r: seq<Id>)
    ensures |r| == |cs| && forall i :: 0 <= i < |cs| ==> r[i] == cs[i].id
  {
    seq(|cs|, i requires 0 <= i < |cs| => cs[i].id)
  }
}
