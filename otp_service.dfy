/**
 The OTP lifecycle of `OtpService`: issuing a code for a (mobile number, user id)
 pair and validating a submitted code against the stored one.

 The wall clock (`System.currentTimeMillis()`) and the random draw
 (`nextInt(1000000)`) are parameters; the repository is the map field `store`.
 */
module Service {
  import opened JavaLong
  import opened OtpCode
  import opened OtpStore

  /** Lifetime of an issued code: 5 * 60 * 1000 milliseconds. */
  const OTP_EXPIRATION_MS: Long := 5 * 60 * 1000

  /** The storage id of a pair: `mobileNumber + ":" + userId`. */
  function IdentityKey(mobileNumber: string, userId: string): (id: string)
    ensures |id| == |mobileNumber| + 1 + |userId|
    ensures id[..|mobileNumber|] == mobileNumber
    ensures id[|mobileNumber|] == ':'
    ensures id[|mobileNumber| + 1..] == userId
  {
    mobileNumber + ":" + userId
  }

  /** The key tells pairs apart as long as mobile numbers hold no ':'. */
  lemma IdentityKeyInjective(m1: string, u1: string, m2: string, u2: string)
    requires ':' !in m1 && ':' !in m2
    requires IdentityKey(m1, u1) == IdentityKey(m2, u2)
    ensures m1 == m2 && u1 == u2
  {
  }

  /** Without that, two different pairs share one key. */
  lemma IdentityKeyCollision()
    ensures ("a:b", "c") != ("a", "b:c")
    ensures IdentityKey("a:b", "c") == IdentityKey("a", "b:c")
  {
  }

  /** `System.currentTimeMillis() + OTP_EXPIRATION_MS`, with Java's `long` wrap-around. */
  function ExpiryTime(now: Long): (t: Long)
    ensures now <= LONG_MAX - OTP_EXPIRATION_MS ==> t == now + OTP_EXPIRATION_MS
    ensures now > LONG_MAX - OTP_EXPIRATION_MS ==> t < now
  {
    AddLong(now, OTP_EXPIRATION_MS)
  }

  /** The record `generateOtp` saves for a pair and a code at time `now`. */
  function IssuedRecord(mobileNumber: string, userId: string, code: string, now: Long): (record: OtpDetails)
    ensures record.id == IdentityKey(record.mobileNumber, record.userId)
    ensures record.mobileNumber == mobileNumber && record.userId == userId && record.otp == code
    ensures now <= LONG_MAX - OTP_EXPIRATION_MS ==>
      record.expirationTime - now == OTP_EXPIRATION_MS && !IsExpired(record, now)
  {
    OtpDetails(IdentityKey(mobileNumber, userId), code, mobileNumber, userId, ExpiryTime(now))
  }

  /** A code counts as expired from its expiration instant on. */
  predicate IsExpired(record: OtpDetails, now: Long) {
    now >= record.expirationTime
  }

  /** The four paths of `validateOtp`; only `Accepted` returns true. */
  datatype Verdict = NotFound | Mismatch | Expired | Accepted

  /** Which path `validateOtp` takes for the record filed under `id`. */
  function Classify(store: Store, id: string, otpToValidate: string, now: Long): (v: Verdict)
    ensures v == NotFound <==> id !in store
    ensures v == Mismatch <==> id in store && store[id].otp != otpToValidate
    ensures v == Accepted <==> id in store && store[id].otp == otpToValidate && now < store[id].expirationTime
  {
    match FindById(store, id)
    case None => NotFound
    case Some(record) =>
      if record.otp != otpToValidate then Mismatch
      else if IsExpired(record, now) then Expired
      else Accepted
  }

  /** The store `validateOtp` leaves: the record goes only when the submitted code matches it. */
  function StoreAfterValidate(store: Store, id: string, otpToValidate: string): (after: Store)
    ensures after.Keys <= store.Keys && forall k :: k in after ==> after[k] == store[k]
    ensures after.Keys - {id} == store.Keys - {id}
    ensures id in after <==> id in store && store[id].otp != otpToValidate
  {
    match FindById(store, id)
    case None => store
    case Some(record) => if record.otp == otpToValidate then DeleteById(store, id) else store
  }

  class OtpService {
    /** The repository's contents: record id to record. */
    var store: Store

    constructor (initial: Store)
      ensures store == initial
    {
      store := initial;
    }

    /** `generateOtp`: renders the draw as a six-digit code and saves it for the pair,
        overwriting any earlier record under the same key. */
    method GenerateOtp(mobileNumber: string, userId: string, otpNumber: nat, now: Long)
      returns (generatedOtp: string)
      requires otpNumber < OTP_BOUND
      modifies this
      ensures generatedOtp == FormatOtp(otpNumber)
      ensures |generatedOtp| == OTP_WIDTH && AllDigits(generatedOtp)
      ensures ParseDecimal(generatedOtp) == otpNumber
      ensures store == old(store)[IdentityKey(mobileNumber, userId) :=
        OtpDetails(IdentityKey(mobileNumber, userId), generatedOtp, mobileNumber, userId, ExpiryTime(now))]
      ensures WellKeyed(old(store)) ==> WellKeyed(store)
    {
      generatedOtp := FormatOtp(otpNumber);
      var id := IdentityKey(mobileNumber, userId);
      var expirationTime := ExpiryTime(now);
      var otpDetails := OtpDetails(id, generatedOtp, mobileNumber, userId, expirationTime);
      store := Save(store, otpDetails);
      FormatOtpWidth(otpNumber);
      FormatOtpRoundTrip(otpNumber);
    }

    /** `validateOtp`: true exactly when a record for the pair exists, its code equals the
        submitted one and it has not expired. */
    method ValidateOtp(mobileNumber: string, userId: string, otpToValidate: string, now: Long)
      returns (valid: bool)
      modifies this
      ensures valid <==> Classify(old(store), IdentityKey(mobileNumber, userId), otpToValidate, now) == Accepted
      ensures store == StoreAfterValidate(old(store), IdentityKey(mobileNumber, userId), otpToValidate)
      ensures IdentityKey(mobileNumber, userId) !in old(store) ==> !valid && store == old(store)
      ensures var id := IdentityKey(mobileNumber, userId);
        id in old(store) && old(store)[id].otp != otpToValidate ==> !valid && store == old(store)
      ensures var id := IdentityKey(mobileNumber, userId);
        id in old(store) && old(store)[id].otp == otpToValidate ==>
          store == old(store) - {id} && (valid <==> now < old(store)[id].expirationTime)
      ensures WellKeyed(old(store)) ==> WellKeyed(store)
    {
      var id := IdentityKey(mobileNumber, userId);
      var otpDetailsOptional := FindById(store, id);
      if otpDetailsOptional.None? {
        return false;
      }
      var otpDetails := otpDetailsOptional.value;
      if otpDetails.otp != otpToValidate {
        return false;
      }
      var isExpired := IsExpired(otpDetails, now);
      store := DeleteById(store, id);
      if isExpired {
        return false;
      }
      return true;
    }
  }

  /** A freshly issued code is accepted until its expiry instant and refused as expired from then on. */
  lemma IssueThenValidate(store: Store, mobileNumber: string, userId: string, otpNumber: nat, issuedAt: Long, now: Long)
    requires issuedAt <= LONG_MAX - OTP_EXPIRATION_MS
    ensures var code := FormatOtp(otpNumber);
      var issued := Save(store, IssuedRecord(mobileNumber, userId, code, issuedAt));
      Classify(issued, IdentityKey(mobileNumber, userId), code, now)
        == if now < issuedAt + OTP_EXPIRATION_MS then Accepted else Expired
  {
  }

  /** Issuing again for the same pair with a different draw makes the earlier code a mismatch. */
  lemma ReissueSupersedes(store: Store, mobileNumber: string, userId: string,
                          earlier: nat, later: nat, issuedAt: Long, now: Long)
    requires earlier != later
    ensures var reissued := Save(store, IssuedRecord(mobileNumber, userId, FormatOtp(later), issuedAt));
      Classify(reissued, IdentityKey(mobileNumber, userId), FormatOtp(earlier), now) == Mismatch
  {
    if FormatOtp(earlier) == FormatOtp(later) {
      FormatOtpInjective(earlier, later);
    }
  }

  /** Expiry is final: a code refused as expired stays refused, and a code accepted at some
      instant was accepted at every earlier one. */
  lemma ExpiryIsFinal(store: Store, id: string, otpToValidate: string, earlier: Long, later: Long)
    requires earlier <= later
    ensures Classify(store, id, otpToValidate, earlier) == Expired ==>
      Classify(store, id, otpToValidate, later) == Expired
    ensures Classify(store, id, otpToValidate, later) == Accepted ==>
      Classify(store, id, otpToValidate, earlier) == Accepted
  {
  }

  /** A validation that finds a matching record consumes it, so the same call made again,
      at any later instant, finds nothing. */
  lemma MatchConsumes(store: Store, id: string, otpToValidate: string, now: Long, later: Long)
    requires Classify(store, id, otpToValidate, now) in {Expired, Accepted}
    ensures var after := StoreAfterValidate(store, id, otpToValidate);
      after == store - {id} && Classify(after, id, otpToValidate, later) == NotFound
  {
  }

  /** A mismatching code consumes nothing: the stored code stays as usable as it was. */
  lemma MismatchKeepsRecord(store: Store, id: string, guess: string, later: Long)
    requires id in store && store[id].otp != guess
    ensures StoreAfterValidate(store, id, guess) == store
    ensures Classify(StoreAfterValidate(store, id, guess), id, store[id].otp, later)
      == if later < store[id].expirationTime then Accepted else Expired
  {
  }

  /** The store after a series of validations of one key with the given codes. */
  function StoreAfterAttempts(store: Store, id: string, attempts: seq<string>): Store
    decreases |attempts|
  {
    if attempts == [] then store
    else StoreAfterAttempts(StoreAfterValidate(store, id, attempts[0]), id, attempts[1..])
  }

  /** Any number of wrong codes leaves the record in place, each one being refused as a
      mismatch, and the stored code is then still accepted until its expiry; the number of
      attempts is not limited. */
  lemma {:induction false} WrongAttemptsKeepRecord(store: Store, id: string, attempts: seq<string>, later: Long)
    requires id in store
    requires forall i :: 0 <= i < |attempts| ==> attempts[i] != store[id].otp
    ensures StoreAfterAttempts(store, id, attempts) == store
    ensures forall i, t: Long :: 0 <= i < |attempts| ==> Classify(store, id, attempts[i], t) == Mismatch
    ensures Classify(StoreAfterAttempts(store, id, attempts), id, store[id].otp, later)
      == if later < store[id].expirationTime then Accepted else Expired
    decreases |attempts|
  {
    if attempts != [] {
      MismatchKeepsRecord(store, id, attempts[0], later);
      WrongAttemptsKeepRecord(store, id, attempts[1..], later);
    }
  }

  /** When `now + OTP_EXPIRATION_MS` overflows a `long`, the code is already expired when issued. */
  lemma ExpiryOverflowIssuesExpiredCode(store: Store, mobileNumber: string, userId: string, code: string, issuedAt: Long)
    requires issuedAt > LONG_MAX - OTP_EXPIRATION_MS
    ensures var issued := Save(store, IssuedRecord(mobileNumber, userId, code, issuedAt));
      Classify(issued, IdentityKey(mobileNumber, userId), code, issuedAt) == Expired
  {
  }

  /** Because of the key collision, a code issued to ("a:b", "c") is accepted for ("a", "b:c"). */
  lemma CollidingPairsShareCode(store: Store, otpNumber: nat, issuedAt: Long, now: Long)
    requires issuedAt <= now < issuedAt + OTP_EXPIRATION_MS <= LONG_MAX
    ensures var code := FormatOtp(otpNumber);
      var issued := Save(store, IssuedRecord("a:b", "c", code, issuedAt));
      Classify(issued, IdentityKey("a", "b:c"), code, now) == Accepted
  {
    IdentityKeyCollision();
  }

  /** Issue a code, then submit it twice at the same instant: the first submission succeeds
      exactly when it comes before expiry, and the replay never does. */
  method IssueAndRedeemTwice(initial: Store, mobileNumber: string, userId: string,
                             otpNumber: nat, issuedAt: Long, redeemAt: Long)
    returns (code: string, first: bool, second: bool)
    requires otpNumber < OTP_BOUND
    ensures |code| == OTP_WIDTH && AllDigits(code) && ParseDecimal(code) == otpNumber
    ensures first <==> redeemAt < ExpiryTime(issuedAt)
    ensures issuedAt <= LONG_MAX - OTP_EXPIRATION_MS ==>
      (first <==> redeemAt < issuedAt + OTP_EXPIRATION_MS)
    ensures !second
  {
    var service := new OtpService(initial);
    code := service.GenerateOtp(mobileNumber, userId, otpNumber, issuedAt);
    first := service.ValidateOtp(mobileNumber, userId, code, redeemAt);
    second := service.ValidateOtp(mobileNumber, userId, code, redeemAt);
  }

  /** Issue a code, submit some guess, then the right code. A wrong guess fails without
      consuming the record, so the right code still succeeds before expiry; a guess that
      happens to be right is consumed by the first submission, so the second one fails. */
  method GuessThenRight(initial: Store, mobileNumber: string, userId: string,
                        otpNumber: nat, guess: string, issuedAt: Long, at: Long)
    returns (code: string, first: bool, second: bool)
    requires otpNumber < OTP_BOUND
    ensures code == FormatOtp(otpNumber)
    ensures guess != code ==> !first && (second <==> at < ExpiryTime(issuedAt))
    ensures guess == code ==> (first <==> at < ExpiryTime(issuedAt)) && !second
    ensures guess != code && issuedAt <= LONG_MAX - OTP_EXPIRATION_MS ==>
      (second <==> at < issuedAt + OTP_EXPIRATION_MS)
  {
    var service := new OtpService(initial);
    code := service.GenerateOtp(mobileNumber, userId, otpNumber, issuedAt);
    first := service.ValidateOtp(mobileNumber, userId, guess, at);
    second := service.ValidateOtp(mobileNumber, userId, code, at);
  }
}
