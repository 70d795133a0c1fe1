/** `ReadingValidationService` (Domain/Services): the exact-duplicate check. */
module ReadingValidation {

  import opened Entities

  /** Two readings are the same sample when device and creation instant agree; nothing else is compared. */
  predicate SameSample(a: Reading, b: Reading)
  {
    a.deviceId == b.deviceId && a.createdAt == b.createdAt
  }

  /** Some existing reading is the same sample as `reading`. */
  predicate HasDuplicate(reading: Reading, existingReadings: seq<Reading>)
  {
    exists i :: 0 <= i < |existingReadings| && SameSample(existingReadings[i], reading)
  }

  /**
   * `ValidateReading`: scans the existing readings and answers false at the
   * first one with the same device and creation instant, true when there is
   * none.
   */
  method ValidateReading(reading: Reading, existingReadings: seq<Reading>) returns (valid: bool)
    ensures valid <==> !HasDuplicate(reading, existingReadings)
    ensures valid <==> forall e :: e in existingReadings ==> e.deviceId != reading.deviceId || e.createdAt != reading.createdAt
  {
    for i := 0 to |existingReadings|
      invariant forall j :: 0 <= j < i ==> !SameSample(existingReadings[j], reading)
    {
      var existing := existingReadings[i];
      if existing.deviceId == reading.deviceId && existing.createdAt == reading.createdAt {
        return false;
      }
    }
    return true;
  }

  /** With no history every reading is accepted. */
  lemma EmptyHistoryAccepts(reading: Reading)
    ensures !HasDuplicate(reading, [])
  {
  }

  /** Id, signal strength and temperature play no part: readings that agree on device and instant get one verdict. */
  lemma VerdictIgnoresOtherFields(a: Reading, b: Reading, existingReadings: seq<Reading>)
    requires a.deviceId == b.deviceId && a.createdAt == b.createdAt
    ensures HasDuplicate(a, existingReadings) <==> HasDuplicate(b, existingReadings)
  {
  }

  /** The same instant on another device is never a duplicate. */
  lemma OtherDevicesNeverConflict(reading: Reading, existingReadings: seq<Reading>)
    requires forall e :: e in existingReadings ==> e.deviceId != reading.deviceId
    ensures !HasDuplicate(reading, existingReadings)
  {
  }

  /** The verdict does not depend on the order of the existing readings. */
  lemma {:induction false} VerdictIgnoresOrder(reading: Reading, xs: seq<Reading>, ys: seq<Reading>)
    requires multiset(xs) == multiset(ys)
    ensures HasDuplicate(reading, xs) <==> HasDuplicate(reading, ys)
  {
    if HasDuplicate(reading, xs) {
      var i :| 0 <= i < |xs| && SameSample(xs[i], reading);
      assert xs[i] in multiset(ys);
      var j :| 0 <= j < |ys| && ys[j] == xs[i];
    }
    if HasDuplicate(reading, ys) {
      var j :| 0 <= j < |ys| && SameSample(ys[j], reading);
      assert ys[j] in multiset(xs);
      var i :| 0 <= i < |xs| && xs[i] == ys[j];
    }
  }

  /**
   * The verdict is monotone: more existing readings can only turn an
   * acceptance into a rejection, never the reverse.
   */
  lemma {:induction false} MoreHistoryOnlyRejects(reading: Reading, xs: seq<Reading>, ys: seq<Reading>)
    requires multiset(xs) <= multiset(ys)
    ensures HasDuplicate(reading, xs) ==> HasDuplicate(reading, ys)
  {
    if HasDuplicate(reading, xs) {
      var i :| 0 <= i < |xs| && SameSample(xs[i], reading);
      assert xs[i] in multiset(xs);
      assert xs[i] in multiset(ys);
      var j :| 0 <= j < |ys| && ys[j] == xs[i];
    }
  }
}
