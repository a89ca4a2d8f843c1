# OTP service: issuing and validating one-time codes

This project models the core of `OtpService`. That class issues a six-digit one-time code for a (mobile number, user id) pair and saves it with a five-minute expiry. It later checks a submitted code against the stored one.

The model has four modules:

- `OtpCode` covers `String.format("%06d", n)` for a draw `n` of `nextInt(1000000)`. It also defines `ParseDecimal`, the inverse the properties are stated with.
- `JavaLong` covers the 64-bit `long` range and the wrap-around of `+`, which `now + OTP_EXPIRATION_MS` is subject to.
- `OtpStore` covers the `OtpDetails` record and the three repository operations the service calls: `save`, `findById` and `deleteById`. The repository is an in-memory map from id to record.
- `Service` covers the identity key `mobileNumber + ":" + userId`, the expiry instant and the class `OtpService`. That class holds the map as a field, and `GenerateOtp` and `ValidateOtp` update it step by step as the Java methods do. Beside the class are:
  - the functions `Classify` (which of the four paths validation takes) and `StoreAfterValidate` (what is left in the store);
  - lemmas relating several calls;
  - two client methods that run a whole issue-and-validate scenario on a fresh service.

The clock value `System.currentTimeMillis()` and the random draw are parameters (`now`, `otpNumber`). The draw satisfies `otpNumber < 1000000`, which is what `nextInt(1000000)` guarantees.

### Where the code and its unit test disagree

The model follows the code. When the submitted code does not match, `validateOtp` returns at lines 68-71, before the `deleteById` at line 77. So a wrong code consumes nothing. The test at `otp-service/src/test/java/com/example/otpservice/service/OtpServiceTest.java:96` expects a delete in that case, which the code does not do.

`MismatchKeepsRecord`, `WrongAttemptsKeepRecord` and `GuessThenRight` state the behaviour as written. A wrong guess leaves the right code usable, and the number of wrong attempts is unlimited.

The record is deleted only when the code matches. That happens whether the code is still valid or already expired (`MatchConsumes`).

### The identity key is not injective

`("a:b", "c")` and `("a", "b:c")` both map to the id `"a:b:c"` (`IdentityKeyCollision`). A code issued to one of these pairs is therefore accepted for the other (`CollidingPairsShareCode`). The key does tell pairs apart when mobile numbers contain no `':'` (`IdentityKeyInjective`).

## Model

| member | source | states |
|---|---|---|
| `OtpCode.FormatOtp` | otp-service/src/main/java/com/example/otpservice/service/OtpService.java:35 | `%06d` of a non-negative number yields only decimal digits, and at least six of them |
| `OtpCode.Decimal` | otp-service/src/main/java/com/example/otpservice/service/OtpService.java:35 | the digit string `%d` renders is non-empty, all digits, and has no leading zero unless the number is zero |
| `OtpCode.ZeroPadded` | otp-service/src/main/java/com/example/otpservice/service/OtpService.java:35 | `%0<width>d` of a non-negative number: the digits of the number preceded by just enough '0's to reach the width, or the digits alone when they are already that long |
| `OtpCode.ParseDecimalOfDecimal` | otp-service/src/main/java/com/example/otpservice/service/OtpService.java:35 | reading back the rendered digits of `n` gives `n` |
| `OtpCode.ParseLeadingZeros` | otp-service/src/main/java/com/example/otpservice/service/OtpService.java:35 | the zero padding of `%06d` does not change the number the digits denote |
| `OtpCode.DecimalLength` | otp-service/src/main/java/com/example/otpservice/service/OtpService.java:35 | `n` renders in at most `k` digits exactly when `n < 10^k` |
| `OtpCode.FormatOtpWidth` | otp-service/src/main/java/com/example/otpservice/service/OtpService.java:34-35 | the code is exactly six characters long if and only if the draw is below 1000000, so every draw of `nextInt(1000000)` gives six digits |
| `OtpCode.FormatOtpRoundTrip` | otp-service/src/main/java/com/example/otpservice/service/OtpService.java:34-35 | the code denotes the draw it was rendered from |
| `OtpCode.FormatOtpInjective` | otp-service/src/main/java/com/example/otpservice/service/OtpService.java:35 | distinct draws give distinct codes |
| `JavaLong.AddLong` | otp-service/src/main/java/com/example/otpservice/service/OtpService.java:38 | `long` addition is the sum modulo 2^64 within the `long` range; it is exact when the sum fits, and it is smaller than both operands when it overflows |
| `OtpStore.Save` | otp-service/src/main/java/com/example/otpservice/service/OtpService.java:41 | `save` files the record under its own id and replaces any earlier one; every other entry is unchanged and the store stays keyed by record id |
| `OtpStore.FindById` | otp-service/src/main/java/com/example/otpservice/service/OtpService.java:58 | `findById` yields the record filed under the id exactly when one is present |
| `OtpStore.DeleteById` | otp-service/src/main/java/com/example/otpservice/service/OtpService.java:77 | `deleteById` removes exactly that id; every remaining entry is unchanged |
| `Service.IdentityKey` | otp-service/src/main/java/com/example/otpservice/service/OtpService.java:37 | the key is the mobile number, then `':'`, then the user id |
| `Service.IdentityKeyInjective` | otp-service/src/main/java/com/example/otpservice/service/OtpService.java:57 | when neither mobile number contains `':'`, equal keys mean equal pairs |
| `Service.IdentityKeyCollision` | otp-service/src/main/java/com/example/otpservice/service/OtpService.java:57 | two different pairs share the key `"a:b:c"` |
| `Service.ExpiryTime` | otp-service/src/main/java/com/example/otpservice/service/OtpService.java:38 | the expiry is `now + 300000` when that fits in a `long`, and otherwise wraps below `now` |
| `Service.IssuedRecord` | otp-service/src/main/java/com/example/otpservice/service/OtpService.java:37-40 | the record built for a pair is filed under the key of its own mobile number and user id, holds the code, and expires exactly 300000 ms after `now`, so it is live at the instant it is built (when the sum does not overflow) |
| `Service.Classify` | otp-service/src/main/java/com/example/otpservice/service/OtpService.java:60-85 | the path `validateOtp` takes: not found exactly when the key is absent; mismatch exactly when the stored code differs from the submitted one; accepted exactly when the codes match and `now < expirationTime`; expired otherwise |
| `Service.StoreAfterValidate` | otp-service/src/main/java/com/example/otpservice/service/OtpService.java:60-77 | validation never adds or alters a record and never removes another key's; the pair's record is gone afterwards exactly when it was present with the submitted code |
| `Service.ExpiryIsFinal` | otp-service/src/main/java/com/example/otpservice/service/OtpService.java:74 | with `now >= expirationTime` as the test, a code refused as expired at some instant stays refused later, and a code accepted at some instant was accepted at every earlier one |
| `Service.OtpService.constructor` | otp-service/src/main/java/com/example/otpservice/service/OtpService.java:20-23 | the service starts on the given repository contents |
| `Service.OtpService.GenerateOtp` | otp-service/src/main/java/com/example/otpservice/service/OtpService.java:32-46 | returns the `%06d` rendering of the draw: six digits that denote the draw. The store then maps `mobileNumber + ":" + userId` to a record with that id, the code, the mobile number, the user id and expiry `ExpiryTime(now)`, which is `now + 300000` when that fits in a `long`. Any earlier record under that key is overwritten and every other key is unchanged |
| `Service.OtpService.ValidateOtp` | otp-service/src/main/java/com/example/otpservice/service/OtpService.java:56-86 | absent key: false, store unchanged. Code mismatch: false, store unchanged. Matching code: exactly that key is removed, and the result is true if and only if `now < expirationTime` |
| `Service.IssueThenValidate` | otp-service/src/main/java/com/example/otpservice/service/OtpService.java:74-85 | a code issued at `t0` is accepted at any `t < t0 + 300000` and reported expired from `t0 + 300000` on |
| `Service.ReissueSupersedes` | otp-service/src/main/java/com/example/otpservice/service/OtpService.java:41 | after a new code is issued for the same pair from a different draw, the earlier code is a mismatch |
| `Service.MatchConsumes` | otp-service/src/main/java/com/example/otpservice/service/OtpService.java:74-77 | a validation with the matching code, whether expired or not, removes exactly that key, so repeating it at any later time finds nothing |
| `Service.MismatchKeepsRecord` | otp-service/src/main/java/com/example/otpservice/service/OtpService.java:68-71 | a mismatching code leaves the store as it was, and the stored code stays accepted until its expiry |
| `Service.WrongAttemptsKeepRecord` | otp-service/src/main/java/com/example/otpservice/service/OtpService.java:68-71 | any series of wrong codes leaves the store unchanged, each one being refused as a mismatch; afterwards the stored code is still accepted until its expiry and refused as expired from then on; attempts are not limited |
| `Service.ExpiryOverflowIssuesExpiredCode` | otp-service/src/main/java/com/example/otpservice/service/OtpService.java:38 | if `now + 300000` overflows a `long`, the issued code is already expired at the instant it was issued |
| `Service.CollidingPairsShareCode` | otp-service/src/main/java/com/example/otpservice/service/OtpService.java:57 | a code issued to `("a:b", "c")` is accepted, before expiry, when validated for `("a", "b:c")` |
| `Service.IssueAndRedeemTwice` | otp-service/src/main/java/com/example/otpservice/service/OtpService.java:77 | on any initial store, issuing a code and submitting it twice behaves as follows. The code has six digits and denotes the draw. The first submission succeeds if and only if it comes before the stored expiry `ExpiryTime(issuedAt)`, which is `issuedAt + 300000` when that fits in a `long`. The replay always fails |
| `Service.GuessThenRight` | otp-service/src/main/java/com/example/otpservice/service/OtpService.java:68-77 | on any initial store, a guess followed by the right code behaves as follows. A wrong guess fails and consumes nothing, so the right code submitted afterwards still succeeds if and only if it comes before the stored expiry `ExpiryTime(issuedAt)` (`issuedAt + 300000` when that fits in a `long`). A guess that is the right code succeeds if and only if it comes before expiry, and the resubmission then fails |

## Left out

- `sendSms` (OtpService.java:95-111) and all logging: output-only side effects with no bearing on the result or the store.
- `new Random().nextInt(1000000)` and `System.currentTimeMillis()`: they are parameters (`otpNumber`, `now`). The draw's range is a precondition because that is what `nextInt` guarantees.
- Spring Data and Redis persistence (`@RedisHash`, the repository interface): the store is a plain map, and repository calls never fail. In the source, `save`, `findById` or `deleteById` can throw, for example when Redis is unreachable. If `deleteById` throws after a match (line 77), the record stays and `validateOtp` throws instead of returning. Redis TTL eviction and durability are not modelled either.
- Concurrency: `validateOtp` calls `findById` and `deleteById` separately (lines 58 and 77), not as one atomic take. Only sequential behaviour is modelled, so races between two validations are not captured.
- `null` arguments: Java would concatenate them as `"null"` into the key. Strings here are never null.
- `OtpCode.FormatOtp`: negative numbers (which `%06d` renders with a leading `-`) are not modelled, because the draw is never negative.
- `OtpCode.FormatOtp`: assumes the default format locale writes digits as ASCII '0'..'9'. `String.format` uses that locale, and Java's formatter rewrites each digit relative to the locale's zero digit. Under a locale with other digits (Thai `th_TH_TH`, say), line 35 produces six non-ASCII digits, and the ASCII-digit results here would not describe it.
- The REST controller, its blank-field checks and the request DTOs: transport glue outside the service. The service itself does not reject empty mobile numbers or user ids, and neither does the model.
