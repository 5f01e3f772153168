/** The certification status rule: a certification's state is derived from
    the whole number of days between today and its expiry date. Dates are
    day numbers, so `expiry - today` is the `(expiry_date - today).days` of
    the service. */
module CertStatus {

  /** A calendar date as a day number; ISO date strings order like these. */
  type Day = int

  /** How many days ahead a certification counts as expiring soon. */
  const ExpiringWindow: nat := 30

  datatype CertificationStatus = Active | Expired | ExpiringSoon

  function StatusOf(expiry: Day, today: Day): (r: CertificationStatus)
    ensures r == Expired <==> expiry - today < 0
    ensures r == ExpiringSoon <==> 0 <= expiry - today <= ExpiringWindow
    ensures r == Active <==> expiry - today > ExpiringWindow
  {
    var daysUntilExpiry := expiry - today;
    if daysUntilExpiry < 0 then Expired
    else if daysUntilExpiry <= ExpiringWindow then ExpiringSoon
    else Active
  }

  /** Stated on plain dates, as the dashboard and the expiring list compare them. */
  lemma StatusByDate(expiry: Day, today: Day)
    ensures StatusOf(expiry, today) == Expired <==> expiry < today
    ensures StatusOf(expiry, today) == ExpiringSoon <==> today <= expiry <= today + ExpiringWindow
    ensures StatusOf(expiry, today) == Active <==> expiry > today + ExpiringWindow
    ensures StatusOf(expiry, today) != Active <==> expiry <= today + ExpiringWindow
  {
  }

  /** A certification expiring today is still valid, but only just. */
  lemma ExpiresTodayIsExpiringSoon(today: Day)
    ensures StatusOf(today, today) == ExpiringSoon
    ensures StatusOf(today - 1, today) == Expired
    ensures StatusOf(today + ExpiringWindow, today) == ExpiringSoon
    ensures StatusOf(today + ExpiringWindow + 1, today) == Active
  {
  }

  /** As days pass a certification only moves forward: Active, then
      ExpiringSoon, then Expired, never back. */
  lemma StatusNeverImproves(expiry: Day, today: Day, later: Day)
    requires today <= later
    ensures StatusOf(expiry, today) == Expired ==> StatusOf(expiry, later) == Expired
    ensures StatusOf(expiry, today) == ExpiringSoon ==> StatusOf(expiry, later) != Active
  {
  }
}
