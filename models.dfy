/**
 * The records the customer views work on, and the two database queries
 * whose semantics the views depend on: `Customers.objects.get(email=...,
 * is_deleted=False)` and `CustomerOTP.objects.filter(customer_id=...).last()`.
 *
 * The store is a value here; the `Store` class of module Views holds one and
 * updates it in place.
 */
module Models {
  import opened Wrappers

  /** A customer row (ee_customers); audit timestamps, date of birth and credit are not modelled. */
  datatype Customer = Customer(
    id: nat,
    username: string,
    email: string,
    password: string,
    mobileNo: Option<string>,
    isDeleted: bool)

  /**
   * An OTP row (ee_customer_otp).  Rows are kept in primary-key order, so the
   * position in the sequence is the primary-key order; `createdAt` is in
   * seconds.
   */
  datatype OtpRecord = OtpRecord(customerId: nat, otp: string, createdAt: int)

  /** A message handed to the mail transport: recipient and body. */
  datatype Mail = Mail(to: string, body: string)

  /** The customers table, the OTP table, and the mails sent so far. */
  datatype Db = Db(customers: seq<Customer>, otps: seq<OtpRecord>, outbox: seq<Mail>)

  /** An OTP verifies only while it is younger than two minutes (strictly). */
  const OtpValiditySeconds: int := 120

  /**
   * What the database itself guarantees: ids are assigned in insertion order
   * starting at 1, `email` is unique over all rows (deleted or not),
   * `mobile_no` is unique over the rows that have one, and every OTP row
   * refers to an existing customer.  In particular no two rows share a
   * primary key.
   */
  ghost predicate WellFormed(db: Db)
    ensures WellFormed(db) ==>
      forall i, j :: 0 <= i < j < |db.customers| ==> db.customers[i].id != db.customers[j].id
  {
    && (forall i :: 0 <= i < |db.customers| ==> db.customers[i].id == i + 1)
    && (forall i, j :: 0 <= i < j < |db.customers| ==> db.customers[i].email != db.customers[j].email)
    && (forall i, j :: 0 <= i < j < |db.customers| && db.customers[i].mobileNo.Some? ==>
          db.customers[i].mobileNo != db.customers[j].mobileNo)
    && (forall i :: 0 <= i < |db.otps| ==> 1 <= db.otps[i].customerId <= |db.customers|)
  }

  predicate IsActiveWith(c: Customer, email: string) {
    !c.isDeleted && c.email == email
  }

  /** `Customers.objects.filter(email=email, is_deleted=False).exists()` */
  predicate ActiveEmail(cs: seq<Customer>, email: string) {
    exists i :: 0 <= i < |cs| && IsActiveWith(cs[i], email)
  }

  /** `Customers.objects.filter(mobile_no=m, is_deleted=False).exists()` */
  predicate ActiveMobile(cs: seq<Customer>, m: string) {
    exists i :: 0 <= i < |cs| && !cs[i].isDeleted && cs[i].mobileNo == Some(m)
  }

  /** Some row, deleted or not, already holds this email (the unique index). */
  predicate EmailTaken(cs: seq<Customer>, email: string) {
    exists i :: 0 <= i < |cs| && cs[i].email == email
  }

  /** Some row, deleted or not, already holds this mobile number (the unique index). */
  predicate MobileTaken(cs: seq<Customer>, m: string) {
    exists i :: 0 <= i < |cs| && cs[i].mobileNo == Some(m)
  }

  /** Row k is the one and only active customer with this email. */
  predicate OnlyActiveMatch(cs: seq<Customer>, email: string, k: nat) {
    k < |cs| && IsActiveWith(cs[k], email)
    && forall j :: 0 <= j < |cs| && j != k ==> !IsActiveWith(cs[j], email)
  }

  /** The positions, in increasing order, of the active customers with this email. */
  function ActiveIndices(cs: seq<Customer>, email: string): (r: seq<nat>)
    ensures forall i: nat :: i in r <==> i < |cs| && IsActiveWith(cs[i], email)
    ensures forall a, b :: 0 <= a < b < |r| ==> r[a] < r[b]
  {
    if cs == [] then []
    else
      var n := |cs| - 1;
      var prefix := ActiveIndices(cs[..n], email);
      assert forall a :: 0 <= a < |prefix| ==> prefix[a] < n by {
        forall a | 0 <= a < |prefix| ensures prefix[a] < n {
          assert prefix[a] in prefix;
        }
      }
      prefix + (if IsActiveWith(cs[n], email) then [n] else [])
  }

  /** The three outcomes of Django's `get`: no row, exactly one row, or several rows. */
  datatype Lookup = DoesNotExist | Found(index: nat) | MultipleObjectsReturned

  /** `Customers.objects.get(email=email, is_deleted=False)` */
  function GetActive(cs: seq<Customer>, email: string): (r: Lookup)
    ensures r == DoesNotExist <==> !ActiveEmail(cs, email)
    ensures r.Found? ==> OnlyActiveMatch(cs, email, r.index)
    ensures forall k: nat :: OnlyActiveMatch(cs, email, k) ==> r == Found(k)
    ensures r.Found? <==> exists k: nat :: OnlyActiveMatch(cs, email, k)
    ensures r == MultipleObjectsReturned <==>
      exists i, j :: 0 <= i < j < |cs| && IsActiveWith(cs[i], email) && IsActiveWith(cs[j], email)
  {
    var idx := ActiveIndices(cs, email);
    if |idx| == 0 then
      NoActiveIndex(cs, email);
      DoesNotExist
    else if |idx| == 1 then
      OneActiveIndex(cs, email);
      Found(idx[0])
    else
      SeveralActiveIndices(cs, email);
      MultipleObjectsReturned
  }

  lemma NoActiveIndex(cs: seq<Customer>, email: string)
    requires |ActiveIndices(cs, email)| == 0
    ensures !ActiveEmail(cs, email)
  {
    var idx := ActiveIndices(cs, email);
    forall i | 0 <= i < |cs| ensures !IsActiveWith(cs[i], email) {
      assert i !in idx;
    }
  }

  lemma OneActiveIndex(cs: seq<Customer>, email: string)
    requires |ActiveIndices(cs, email)| == 1
    ensures OnlyActiveMatch(cs, email, ActiveIndices(cs, email)[0])
    ensures forall i, j :: 0 <= i < j < |cs| ==> !(IsActiveWith(cs[i], email) && IsActiveWith(cs[j], email))
  {
    var idx := ActiveIndices(cs, email);
    assert idx[0] in idx;
    forall j | 0 <= j < |cs| && IsActiveWith(cs[j], email) ensures j == idx[0] {
      assert j in idx;
    }
  }

  lemma SeveralActiveIndices(cs: seq<Customer>, email: string)
    requires |ActiveIndices(cs, email)| >= 2
    ensures exists i, j :: 0 <= i < j < |cs| && IsActiveWith(cs[i], email) && IsActiveWith(cs[j], email)
    ensures ActiveEmail(cs, email)
    ensures forall k: nat :: !OnlyActiveMatch(cs, email, k)
  {
    var idx := ActiveIndices(cs, email);
    assert idx[0] in idx && idx[1] in idx;
    assert idx[0] < idx[1];
    forall k: nat | OnlyActiveMatch(cs, email, k) ensures false {
    }
  }

  /** Under the unique index on email, `get` never finds several rows. */
  lemma GetActiveNeverMultiple(db: Db, email: string)
    requires WellFormed(db)
    ensures GetActive(db.customers, email) != MultipleObjectsReturned
  {
  }

  /**
   * `CustomerOTP.objects.filter(customer_id=cid).last()`: the position of the
   * customer's OTP row with the highest primary key, or None when the
   * customer has no OTP row.
   */
  function LatestOtp(otps: seq<OtpRecord>, cid: nat): (k: Option<nat>)
    ensures k.Some? ==> k.value < |otps| && otps[k.value].customerId == cid
    ensures k.Some? ==> forall j :: k.value < j < |otps| ==> otps[j].customerId != cid
    ensures k.None? <==> forall j :: 0 <= j < |otps| ==> otps[j].customerId != cid
  {
    if otps == [] then None
    else if otps[|otps| - 1].customerId == cid then Some(|otps| - 1)
    else LatestOtp(otps[..|otps| - 1], cid)
  }

  /** Appending a row for a customer makes it that customer's latest, and leaves every other customer's latest where it was. */
  lemma {:induction false} LatestOtpAfterAppend(otps: seq<OtpRecord>, r: OtpRecord, cid: nat)
    ensures LatestOtp(otps + [r], cid) ==
      if r.customerId == cid then Some(|otps|) else LatestOtp(otps, cid)
  {
    assert (otps + [r])[..|otps|] == otps;
  }

  /**
   * `timezone.now() - customer_otp.created_at < timedelta(minutes=2)`: in
   * whole seconds, an OTP is fresh up to 119 seconds after it was created
   * (and at any time before, should the clock have gone back), and expired
   * from the 120th second on.
   */
  predicate OtpFresh(rec: OtpRecord, now: int)
    ensures OtpFresh(rec, now) <==> now <= rec.createdAt + OtpValiditySeconds - 1
  {
    now - rec.createdAt < OtpValiditySeconds
  }

}
