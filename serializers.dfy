/**
 * The SMS-code login flow of users/serializers.py.
 *
 * Sending a code validates the phone and appends an unused code record.
 * Logging in validates the phone and the code field, selects the most recently
 * created unused record that matches both, refuses it when none exists or when
 * it has expired, and then marks exactly that record used and gets or creates
 * the user with that phone. Each method is proved against a function on the
 * tables, and the lemmas state what those functions promise: the selection is
 * the latest match, and a consumed record is never selected again.
 */
module Serializers {
  import opened Wrappers
  import opened Numerals
  import opened Models

  /** The fixed code issued in test mode. */
  const TestCode: string := "123456"

  /** `LoginSerializer.code` is a CharField with max_length=6. */
  const CodeFieldMaxLength: nat := 6

  /** An ASCII decimal digit, '0' to '9'. */
  predicate IsDigit(c: char)
  {
    c in DecimalDigits
  }

  /** `validate_phone` of both serializers: every character a digit, and exactly 11 of them. */
  predicate ValidPhone(phone: string)
  {
    |phone| == 11 && forall i :: 0 <= i < |phone| ==> IsDigit(phone[i])
  }

  /**
   * The phones `validate_phone` accepts are exactly the 11-digit decimal
   * numerals: each is the zero-padded writing of the number it denotes, which
   * lies below 10^11.
   */
  lemma ValidPhoneNumerals(phone: string)
    ensures ValidPhone(phone) <==>
      |phone| == 11 && Numeral(NumeralValue(phone, DecimalDigits), 11, DecimalDigits) == phone
    ensures ValidPhone(phone) ==> NumeralValue(phone, DecimalDigits) < Pow(10, 11)
  {
    if ValidPhone(phone) {
      ValueRoundTrip(phone, DecimalDigits);
    }
  }

  /** The code field is present and not longer than its max_length. */
  predicate ValidCodeField(code: string)
  {
    0 < |code| <= CodeFieldMaxLength
  }

  // ---------------------------------------------------------------------------
  // SendSmsCodeSerializer
  // ---------------------------------------------------------------------------

  /** What `random.choices('0123456789', k=length)` picked: `length` indices into the ten digits. */
  predicate RandomDraws(draws: seq<nat>, length: nat)
  {
    |draws| == length && forall i :: 0 <= i < |draws| ==> draws[i] < 10
  }

  /** The code a send issues: "123456" in test mode, otherwise `length` random decimal digits. */
  function NewCode(isTest: bool, draws: seq<nat>, length: nat): (code: string)
    requires isTest || RandomDraws(draws, length)
    ensures isTest ==> code == TestCode
    ensures !isTest ==> |code| == length && forall i :: 0 <= i < |code| ==> IsDigit(code[i])
  {
    if isTest then TestCode
    else
      var digits := seq(|draws|, i requires 0 <= i < |draws| => DecimalDigits[draws[i]]);
      assert forall i :: 0 <= i < |digits| ==> digits[i] == DecimalDigits[draws[i]];
      digits
  }

  datatype Issued = Issued(phone: string, code: string)

  datatype SendError = InvalidPhone

  /**
   * The send-code request (`is_valid` then `create`): an invalid phone changes
   * nothing; a valid one appends exactly one unused record and returns its
   * phone and code.
   */
  method SendCode(db: Database, phone: string, isTest: bool, draws: seq<nat>, now: int, settings: Settings)
    returns (r: Result<Issued, SendError>)
    requires db.Valid()
    requires isTest || RandomDraws(draws, settings.smsCodeLength)
    modifies db
    ensures db.Valid()
    ensures !ValidPhone(phone) ==> r == Failure(InvalidPhone) && unchanged(db)
    ensures ValidPhone(phone) ==>
      var code := NewCode(isTest, draws, settings.smsCodeLength);
      && r == Success(Issued(phone, code))
      && db.codes == old(db.codes) + [SmsCode(old(db.nextCodeId), phone, code, now, false)]
      && db.users == old(db.users)
  {
    if !ValidPhone(phone) {
      return Failure(InvalidPhone);
    }
    var code := NewCode(isTest, draws, settings.smsCodeLength);
    var rec := db.InsertCode(phone, code, now);
    r := Success(Issued(phone, code));
  }

  // ---------------------------------------------------------------------------
  // Selecting the record: filter(phone, code, is_used=False).latest('created_at')
  // ---------------------------------------------------------------------------

  /** The record is unused and carries this phone and this code. */
  predicate Matches(c: SmsCode, phone: string, code: string)
  {
    c.phone == phone && c.code == code && !c.isUsed
  }

  /**
   * Record `i` matches and no matching record was created later; among
   * records created at the same instant, the one inserted last is taken.
   */
  ghost predicate IsLatestMatch(codes: seq<SmsCode>, phone: string, code: string, i: int)
  {
    && 0 <= i < |codes|
    && Matches(codes[i], phone, code)
    && forall j :: 0 <= j < |codes| && Matches(codes[j], phone, code) ==>
         codes[j].createdAt <= codes[i].createdAt && (i < j ==> codes[j].createdAt < codes[i].createdAt)
  }

  /** The index of the latest matching record, scanning in insertion order. */
  function LatestMatch(codes: seq<SmsCode>, phone: string, code: string): (r: Option<nat>)
    ensures r.Some? ==> r.value < |codes|
  {
    if codes == [] then None
    else
      var last := |codes| - 1;
      var rest := LatestMatch(codes[..last], phone, code);
      if Matches(codes[last], phone, code) && (rest.None? || codes[rest.value].createdAt <= codes[last].createdAt)
      then Some(last)
      else rest
  }

  /** LatestMatch finds nothing exactly when no record matches, and otherwise finds the latest match. */
  lemma {:induction false} LatestMatchSpec(codes: seq<SmsCode>, phone: string, code: string)
    ensures LatestMatch(codes, phone, code).None? <==> forall j :: 0 <= j < |codes| ==> !Matches(codes[j], phone, code)
    ensures LatestMatch(codes, phone, code).Some? ==> IsLatestMatch(codes, phone, code, LatestMatch(codes, phone, code).value)
  {
    if codes != [] {
      var last := |codes| - 1;
      var prefix := codes[..last];
      LatestMatchSpec(prefix, phone, code);
      assert forall j :: 0 <= j < last ==> prefix[j] == codes[j];
    }
  }

  /** At most one record is the latest match. */
  lemma LatestMatchUnique(codes: seq<SmsCode>, phone: string, code: string, i: int, k: int)
    requires IsLatestMatch(codes, phone, code, i) && IsLatestMatch(codes, phone, code, k)
    ensures i == k
  {
  }

  lemma LatestMatchIff(codes: seq<SmsCode>, phone: string, code: string, i: nat)
    ensures LatestMatch(codes, phone, code) == Some(i) <==> IsLatestMatch(codes, phone, code, i)
  {
    LatestMatchSpec(codes, phone, code);
    var r := LatestMatch(codes, phone, code);
    if IsLatestMatch(codes, phone, code, i) {
      LatestMatchUnique(codes, phone, code, r.value, i);
    }
  }

  /** The query of `validate`: walks the records once, keeping the latest match seen so far. */
  method FindLatestUnused(codes: seq<SmsCode>, phone: string, code: string) returns (found: Option<nat>)
    ensures found == LatestMatch(codes, phone, code)
  {
    found := None;
    var i := 0;
    while i < |codes|
      invariant 0 <= i <= |codes|
      invariant found == LatestMatch(codes[..i], phone, code)
    {
      assert codes[..i + 1][..i] == codes[..i];
      if Matches(codes[i], phone, code) && (found.None? || codes[found.value].createdAt <= codes[i].createdAt) {
        found := Some(i);
      }
      i := i + 1;
    }
    assert codes[..|codes|] == codes;
  }

  // ---------------------------------------------------------------------------
  // LoginSerializer
  // ---------------------------------------------------------------------------

  datatype LoginError =
    | InvalidFields(phone: bool, code: bool)  // field validation; both fields are reported
    | CodeMismatch                            // {"code": "验证码错误"}
    | CodeExpired                             // {"code": "验证码已过期"}

  /** The outcome of `is_valid` on a login request: the index of the selected record, or the error. */
  function LoginCheck(codes: seq<SmsCode>, phone: string, code: string, now: int, settings: Settings): (r: Result<nat, LoginError>)
    ensures r.Failure? && r.error.InvalidFields? <==> !ValidPhone(phone) || !ValidCodeField(code)
    ensures r.Success? ==>
      && r.value < |codes| && Matches(codes[r.value], phone, code)
      && !IsExpired(codes[r.value], now, settings.smsCodeExpireMinutes)
  {
    LatestMatchSpec(codes, phone, code);
    if !ValidPhone(phone) || !ValidCodeField(code) then
      Failure(InvalidFields(!ValidPhone(phone), !ValidCodeField(code)))
    else
      match LatestMatch(codes, phone, code)
      case None => Failure(CodeMismatch)
      case Some(i) =>
        if IsExpired(codes[i], now, settings.smsCodeExpireMinutes) then Failure(CodeExpired) else Success(i)
  }

  /** Validation succeeds with record `i` exactly when the fields are valid, `i` is the latest match and it has not expired. */
  lemma LoginCheckSuccessIff(codes: seq<SmsCode>, phone: string, code: string, now: int, settings: Settings, i: nat)
    ensures LoginCheck(codes, phone, code, now, settings) == Success(i) <==>
      && ValidPhone(phone) && ValidCodeField(code)
      && IsLatestMatch(codes, phone, code, i)
      && !IsExpired(codes[i], now, settings.smsCodeExpireMinutes)
  {
    LatestMatchIff(codes, phone, code, i);
  }

  /** Validation fails with the code error exactly when the fields are valid and no unused record matches. */
  lemma LoginCheckMismatchIff(codes: seq<SmsCode>, phone: string, code: string, now: int, settings: Settings)
    ensures LoginCheck(codes, phone, code, now, settings) == Failure(CodeMismatch) <==>
      && ValidPhone(phone) && ValidCodeField(code)
      && forall j :: 0 <= j < |codes| ==> !Matches(codes[j], phone, code)
  {
    LatestMatchSpec(codes, phone, code);
  }

  /** Validation fails with the expiry error exactly when the fields are valid and the latest match has expired. */
  lemma LoginCheckExpiredIff(codes: seq<SmsCode>, phone: string, code: string, now: int, settings: Settings)
    ensures LoginCheck(codes, phone, code, now, settings) == Failure(CodeExpired) <==>
      && ValidPhone(phone) && ValidCodeField(code)
      && exists i :: IsLatestMatch(codes, phone, code, i) && IsExpired(codes[i], now, settings.smsCodeExpireMinutes)
  {
    LatestMatchSpec(codes, phone, code);
    var r := LatestMatch(codes, phone, code);
    if ValidPhone(phone) && ValidCodeField(code) {
      if i :| IsLatestMatch(codes, phone, code, i) && IsExpired(codes[i], now, settings.smsCodeExpireMinutes) {
        LatestMatchIff(codes, phone, code, i);
      }
    }
  }

  /** `LoginSerializer.validate` together with the field validation of `is_valid`. */
  method Validate(db: Database, phone: string, code: string, now: int, settings: Settings) returns (r: Result<nat, LoginError>)
    ensures r == LoginCheck(db.codes, phone, code, now, settings)
  {
    if !ValidPhone(phone) || !ValidCodeField(code) {
      return Failure(InvalidFields(!ValidPhone(phone), !ValidCodeField(code)));
    }
    var found := FindLatestUnused(db.codes, phone, code);
    match found {
      case None =>
        r := Failure(CodeMismatch);
      case Some(i) =>
        if IsExpired(db.codes[i], now, settings.smsCodeExpireMinutes) {
          r := Failure(CodeExpired);
        } else {
          r := Success(i);
        }
    }
  }

  /**
   * `LoginSerializer.create`: marks the selected record used and gets or
   * creates the user with that phone.
   */
  method CompleteLogin(db: Database, phone: string, i: nat, now: int) returns (user: User)
    requires db.Valid() && i < |db.codes|
    modifies db
    ensures db.Valid()
    ensures db.codes == MarkedUsed(old(db.codes), i)
    ensures phone in db.users && db.users[phone] == user
    ensures phone in old(db.users) ==> user == old(db.users)[phone] && db.users == old(db.users)
    ensures phone !in old(db.users) ==> user == DefaultUser(old(db.nextUserId), phone, now) && db.users == old(db.users)[phone := user]
  {
    db.MarkUsed(i);
    var created;
    user, created := db.GetOrCreateUser(phone, now);
  }

  /**
   * The login request (`is_valid` then `save`): a refused request changes
   * nothing; an accepted one consumes exactly the selected record and yields
   * the user with that phone.
   */
  method Login(db: Database, phone: string, code: string, now: int, settings: Settings) returns (r: Result<User, LoginError>)
    requires db.Valid()
    modifies db
    ensures db.Valid()
    ensures var check := LoginCheck(old(db.codes), phone, code, now, settings);
      && (check.Failure? ==> r == Failure(check.error) && unchanged(db))
      && (check.Success? ==>
            && r.Success?
            && db.codes == MarkedUsed(old(db.codes), check.value)
            && phone in db.users && db.users[phone] == r.value
            && (phone in old(db.users) ==> r.value == old(db.users)[phone] && db.users == old(db.users))
            && (phone !in old(db.users) ==> r.value == DefaultUser(old(db.nextUserId), phone, now) && db.users == old(db.users)[phone := r.value]))
  {
    var check := Validate(db, phone, code, now, settings);
    if check.Failure? {
      return Failure(check.error);
    }
    var user := CompleteLogin(db, phone, check.value, now);
    r := Success(user);
  }

  // ---------------------------------------------------------------------------
  // One-time use
  // ---------------------------------------------------------------------------

  /** A record once marked used is never selected again, for any phone, code or time. */
  lemma ConsumedNeverSelected(codes: seq<SmsCode>, i: nat, settings: Settings)
    requires i < |codes|
    ensures forall phone, code, now :: LoginCheck(MarkedUsed(codes, i), phone, code, now, settings) != Success(i)
  {
    var after := MarkedUsed(codes, i);
    forall phone, code, now
      ensures LoginCheck(after, phone, code, now, settings) != Success(i)
    {
      LatestMatchIff(after, phone, code, i);
    }
  }

  /** When the selected record was the only match, the same phone and code are refused afterwards. */
  lemma SecondLoginRefused(codes: seq<SmsCode>, phone: string, code: string, now: int, later: int, settings: Settings, i: nat)
    requires LoginCheck(codes, phone, code, now, settings) == Success(i)
    requires forall j :: 0 <= j < |codes| && j != i ==> !Matches(codes[j], phone, code)
    ensures LoginCheck(MarkedUsed(codes, i), phone, code, later, settings) == Failure(CodeMismatch)
  {
    LoginCheckSuccessIff(codes, phone, code, now, settings, i);
    LoginCheckMismatchIff(MarkedUsed(codes, i), phone, code, later, settings);
  }

  /** Another unused matching record (a second test-mode send, say) lets the same phone and code pass the match again. */
  lemma AnotherRecordMatchesAgain(codes: seq<SmsCode>, phone: string, code: string, now: int, later: int, settings: Settings, i: nat, j: nat)
    requires LoginCheck(codes, phone, code, now, settings) == Success(i)
    requires j < |codes| && j != i && Matches(codes[j], phone, code)
    ensures LoginCheck(MarkedUsed(codes, i), phone, code, later, settings) != Failure(CodeMismatch)
  {
    var after := MarkedUsed(codes, i);
    LoginCheckSuccessIff(codes, phone, code, now, settings, i);
    LoginCheckMismatchIff(after, phone, code, later, settings);
    assert Matches(after[j], phone, code);
  }

  /** A record issued no earlier than every other match is the one a login selects. */
  lemma NewestRecordSelected(codes: seq<SmsCode>, rec: SmsCode)
    requires Matches(rec, rec.phone, rec.code)
    requires forall j :: 0 <= j < |codes| && Matches(codes[j], rec.phone, rec.code) ==> codes[j].createdAt <= rec.createdAt
    ensures LatestMatch(codes + [rec], rec.phone, rec.code) == Some(|codes|)
  {
    var all := codes + [rec];
    assert all[..|codes|] == codes;
    LatestMatchSpec(codes, rec.phone, rec.code);
  }

  /**
   * In test mode: with no earlier unused "123456" for the phone, a code issued
   * at `t` lets a login within the expiry window succeed once, and a second
   * login with the same code is refused with the code error.
   */
  lemma TestModeLoginOnce(codes: seq<SmsCode>, id: nat, phone: string, t: int, now: int, later: int, settings: Settings)
    requires ValidPhone(phone)
    requires forall j :: 0 <= j < |codes| ==> !Matches(codes[j], phone, TestCode)
    requires now <= t + settings.smsCodeExpireMinutes * MicrosPerMinute
    ensures var issued := codes + [SmsCode(id, phone, TestCode, t, false)];
      && LoginCheck(issued, phone, TestCode, now, settings) == Success(|codes|)
      && LoginCheck(MarkedUsed(issued, |codes|), phone, TestCode, later, settings) == Failure(CodeMismatch)
  {
    var rec := SmsCode(id, phone, TestCode, t, false);
    var issued := codes + [rec];
    NewestRecordSelected(codes, rec);
    assert LoginCheck(issued, phone, TestCode, now, settings) == Success(|codes|);
    SecondLoginRefused(issued, phone, TestCode, now, later, settings, |codes|);
  }

  /** With SMS_CODE_LENGTH above 6, a randomly issued code can never pass the login field validation. */
  lemma OverlongCodesRefused(codes: seq<SmsCode>, phone: string, draws: seq<nat>, now: int, settings: Settings)
    requires settings.smsCodeLength > CodeFieldMaxLength && RandomDraws(draws, settings.smsCodeLength)
    ensures LoginCheck(codes, phone, NewCode(false, draws, settings.smsCodeLength), now, settings).Failure?
    ensures LoginCheck(codes, phone, NewCode(false, draws, settings.smsCodeLength), now, settings).error.InvalidFields?
  {
  }
}
