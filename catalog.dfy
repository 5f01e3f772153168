/** The default training catalog that the startup seeding installs. */
module Catalog {
  import opened Common
  import opened Records
  import opened Seeding

  const DefaultCatalog: seq<ModuleCreate> := [
    ModuleCreate("Defensive Driving",
                 "Learn defensive driving techniques to prevent accidents and ensure road safety",
                 DefensiveDriving, 8.0, Some(85), Some(true), None),
    ModuleCreate("Vehicle Inspection",
                 "Pre-trip and post-trip vehicle inspection procedures",
                 VehicleInspection, 4.0, Some(90), Some(true), None),
    ModuleCreate("Safety Protocols",
                 "Comprehensive safety protocols and emergency procedures",
                 Safety, 6.0, Some(85), Some(true), None),
    ModuleCreate("Hazmat Handling",
                 "Hazardous materials handling and transportation safety",
                 Hazmat, 12.0, Some(95), Some(false), None),
    ModuleCreate("Backing and Maneuvering",
                 "Safe backing techniques and tight space maneuvering",
                 BackingManeuvers, 4.0, Some(80), Some(true), None),
    ModuleCreate("Cargo Handling",
                 "Proper cargo loading, securing, and unloading procedures",
                 CargoHandling, 6.0, Some(85), Some(true), None),
    ModuleCreate("Hours of Service",
                 "DOT hours of service regulations and logbook management",
                 HoursOfService, 3.0, Some(90), Some(true), None),
    ModuleCreate("Fatigue Management",
                 "Recognizing and managing driver fatigue for safe operations",
                 FatigueManagement, 2.0, Some(85), Some(true), None)
  ]

  /** The catalog holds eight modules under distinct names; all but hazardous
      materials handling are mandatory, and every required score is set. */
  lemma DefaultCatalogShape()
    ensures |DefaultCatalog| == 8
    ensures Distinct(CatalogNames(DefaultCatalog))
    ensures forall c :: c in DefaultCatalog ==>
      c.requiredScore.Some? && 80 <= c.requiredScore.value <= 95 && c.prerequisites.None?
    ensures forall c :: c in DefaultCatalog ==> c.isMandatory == Some(c.moduleType != Hazmat)
  {
  }
}
