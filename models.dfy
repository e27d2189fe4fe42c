/**
 * The records of users/models.py and the two tables that hold them.
 *
 * An SmsCode is a one-time code issued to a phone; a User is keyed by its phone.
 * The database is a class whose fields are the code table (a sequence in
 * insertion order), the user table (a map from phone to user, so that the
 * phone is unique by construction) and the two auto-increment counters.
 * Instants are integers counting microseconds, the resolution of Python's
 * datetime; the clock itself is a parameter of every operation that reads it.
 */
module Models {
  import opened Wrappers

  const MicrosPerMinute: int := 60 * 1000 * 1000

  /** The settings SMS_CODE_LENGTH and SMS_CODE_EXPIRE_MINUTES. */
  datatype Settings = Settings(smsCodeLength: nat, smsCodeExpireMinutes: nat)

  // ---------------------------------------------------------------------------
  // SmsCode
  // ---------------------------------------------------------------------------

  datatype SmsCode = SmsCode(id: nat, phone: string, code: string, createdAt: int, isUsed: bool)

  /** `SmsCode.is_expired`: the code has outlived its creation time plus the configured minutes. */
  predicate IsExpired(c: SmsCode, now: int, expireMinutes: nat)
  {
    now > c.createdAt + expireMinutes * MicrosPerMinute
  }

  /** Expiry is strict: at exactly the deadline the code is still valid, one microsecond later it is not. */
  lemma ExpiryBoundary(c: SmsCode, expireMinutes: nat)
    ensures var deadline := c.createdAt + expireMinutes * MicrosPerMinute;
      !IsExpired(c, deadline, expireMinutes) && IsExpired(c, deadline + 1, expireMinutes)
  {
  }

  /** Once expired, a code stays expired as the clock moves forward. */
  lemma ExpiryMonotone(c: SmsCode, expireMinutes: nat, t1: int, t2: int)
    requires t1 <= t2 && IsExpired(c, t1, expireMinutes)
    ensures IsExpired(c, t2, expireMinutes)
  {
  }

  /** `SmsCode.__str__`. */
  function SmsCodeText(c: SmsCode): string
  {
    c.phone + " - " + c.code
  }

  /** The text is the phone, the separator " - " and the code, each recoverable by position. */
  lemma SmsCodeTextParts(c: SmsCode)
    ensures var s, n := SmsCodeText(c), |c.phone|;
      |s| == n + 3 + |c.code| && s[..n] == c.phone && s[n..n + 3] == " - " && s[n + 3..] == c.code
  {
    var s, n := SmsCodeText(c), |c.phone|;
    assert s == c.phone + (" - " + c.code);
    assert s[n..] == " - " + c.code;
  }

  /** `SmsCode.save()` after setting `is_used`: record `i` is marked used, nothing else changes. */
  function MarkedUsed(codes: seq<SmsCode>, i: nat): (r: seq<SmsCode>)
    requires i < |codes|
    ensures |r| == |codes| && r[i].isUsed
    ensures r[i] == codes[i].(isUsed := true)
    ensures forall j :: 0 <= j < |codes| && j != i ==> r[j] == codes[j]
  {
    codes[i := codes[i].(isUsed := true)]
  }

  // ---------------------------------------------------------------------------
  // User and UserManager
  // ---------------------------------------------------------------------------

  /** The stored password: empty (a row saved without set_password), unusable (set_password(None)), or set. */
  datatype Password = Blank | Unusable | Hashed(secret: string)

  datatype User = User(
    id: nat,
    phone: string,
    password: Password,
    openid: Option<string>,
    appleId: Option<string>,
    googleId: Option<string>,
    isActive: bool,
    isStaff: bool,
    isSuperuser: bool,
    dateJoined: int)

  /** `User.__str__`. */
  function UserText(u: User): string
  {
    u.phone
  }

  /** The optional identifiers that are unique among users that have one. */
  datatype IdentField = OpenId | AppleId | GoogleId

  function Ident(u: User, f: IdentField): Option<string>
  {
    match f
    case OpenId => u.openid
    case AppleId => u.appleId
    case GoogleId => u.googleId
  }

  /** A value passed as a keyword argument to create_user: a boolean, or a string or None. */
  datatype FieldValue = Flag(flag: bool) | Text(text: Option<string>)

  /** The `**extra_fields` dictionary. */
  type ExtraFields = map<string, FieldValue>

  const FlagFields: set<string> := {"is_active", "is_staff", "is_superuser"}
  const TextFields: set<string> := {"openid", "apple_id", "google_id"}

  /** The key names a field of User and the value is of that field's kind. */
  predicate FitsField(key: string, value: FieldValue)
  {
    (key in FlagFields && value.Flag?) || (key in TextFields && value.Text?)
  }

  /** The value the model gives a field nobody supplied. */
  function DefaultValue(key: string): FieldValue
  {
    if key == "is_active" then Flag(true)
    else if key in FlagFields then Flag(false)
    else Text(None)
  }

  /** A user's field read back under its keyword name. */
  function StoredValue(u: User, key: string): FieldValue
  {
    match key
    case "is_active" => Flag(u.isActive)
    case "is_staff" => Flag(u.isStaff)
    case "is_superuser" => Flag(u.isSuperuser)
    case "openid" => Text(u.openid)
    case "apple_id" => Text(u.appleId)
    case "google_id" => Text(u.googleId)
    case _ => Text(None)
  }

  function FlagOr(extra: ExtraFields, key: string, default: bool): bool
  {
    if key in extra && extra[key].Flag? then extra[key].flag else default
  }

  function TextOf(extra: ExtraFields, key: string): Option<string>
  {
    if key in extra && extra[key].Text? then extra[key].text else None
  }

  datatype CreateUserError =
    | PhoneRequired      // ValueError: the phone is empty
    | UnexpectedField    // a keyword outside the six modelled fields (refused even when User has that field)
    | BadFieldValue      // a value of the wrong kind for its field
    | IntegrityError     // a unique column already holds the value

  /**
   * The user `create_user` builds before saving: the phone must be non-empty;
   * every extra field is stored, every other field takes the model's default;
   * a missing password makes the password unusable.
   */
  function NewUser(id: nat, phone: string, password: Option<string>, extra: ExtraFields, now: int): (r: Result<User, CreateUserError>)
    ensures phone == "" ==> r == Failure(PhoneRequired)
    ensures r.Success? <==> phone != "" && forall k :: k in extra ==> FitsField(k, extra[k])
    ensures r.Success? ==> r.value.id == id && r.value.phone == phone && r.value.dateJoined == now
    ensures r.Success? ==> r.value.password == (if password.None? then Unusable else Hashed(password.value))
    ensures r.Success? ==> forall k :: k in extra ==> StoredValue(r.value, k) == extra[k]
    ensures r.Success? ==> forall k :: k in FlagFields + TextFields && k !in extra ==> StoredValue(r.value, k) == DefaultValue(k)
  {
    if phone == "" then Failure(PhoneRequired)
    else if !(extra.Keys <= FlagFields + TextFields) then Failure(UnexpectedField)
    else if exists k :: k in extra && !FitsField(k, extra[k]) then Failure(BadFieldValue)
    else
      Success(User(
        id, phone,
        if password.None? then Unusable else Hashed(password.value),
        TextOf(extra, "openid"), TextOf(extra, "apple_id"), TextOf(extra, "google_id"),
        FlagOr(extra, "is_active", true), FlagOr(extra, "is_staff", false), FlagOr(extra, "is_superuser", false),
        now))
  }

  /** A user created without extra fields is active, not staff and not a superuser. */
  lemma NewUserDefaults(id: nat, phone: string, password: Option<string>, now: int)
    requires phone != ""
    ensures NewUser(id, phone, password, map[], now).Success?
    ensures var u := NewUser(id, phone, password, map[], now).value;
      u.isActive && !u.isStaff && !u.isSuperuser && u.openid.None? && u.appleId.None? && u.googleId.None?
  {
    var u := NewUser(id, phone, password, map[], now).value;
    assert StoredValue(u, "is_active") == Flag(true);
    assert StoredValue(u, "is_staff") == Flag(false);
    assert StoredValue(u, "is_superuser") == Flag(false);
    assert StoredValue(u, "openid") == Text(None);
    assert StoredValue(u, "apple_id") == Text(None);
    assert StoredValue(u, "google_id") == Text(None);
  }

  /** `dict.setdefault`: the key keeps its value if present, otherwise gets `value`; no other key changes. */
  function SetDefault(extra: ExtraFields, key: string, value: FieldValue): (r: ExtraFields)
    ensures r.Keys == extra.Keys + {key}
    ensures r[key] == if key in extra then extra[key] else value
    ensures forall k :: k in extra ==> r[k] == extra[k]
  {
    if key in extra then extra else extra[key := value]
  }

  /** The keyword arguments `create_superuser` hands on to `create_user`. */
  function SuperuserFields(extra: ExtraFields): ExtraFields
  {
    SetDefault(SetDefault(extra, "is_staff", Flag(true)), "is_superuser", Flag(true))
  }

  /**
   * A superuser is staff and superuser unless the caller said otherwise: a
   * supplied `is_staff` or `is_superuser` is kept, an absent one becomes true.
   */
  lemma SuperuserFlags(id: nat, phone: string, password: Option<string>, extra: ExtraFields, now: int)
    requires NewUser(id, phone, password, SuperuserFields(extra), now).Success?
    ensures var u := NewUser(id, phone, password, SuperuserFields(extra), now).value;
      && u.isStaff == ("is_staff" !in extra || extra["is_staff"] == Flag(true))
      && u.isSuperuser == ("is_superuser" !in extra || extra["is_superuser"] == Flag(true))
  {
    var fields := SuperuserFields(extra);
    var u := NewUser(id, phone, password, fields, now).value;
    assert "is_staff" in fields && "is_superuser" in fields;
    assert StoredValue(u, "is_staff") == fields["is_staff"];
    assert StoredValue(u, "is_superuser") == fields["is_superuser"];
    if "is_staff" in extra {
      assert FitsField("is_staff", fields["is_staff"]);
    }
    if "is_superuser" in extra {
      assert FitsField("is_superuser", fields["is_superuser"]);
    }
  }

  /** The row `get_or_create(phone=phone)` saves: only the phone is given, every other field is a default. */
  function DefaultUser(id: nat, phone: string, now: int): User
  {
    User(id, phone, Blank, None, None, None, true, false, false, now)
  }

  // ---------------------------------------------------------------------------
  // The tables
  // ---------------------------------------------------------------------------

  /** Code ids are given out in increasing order and stay below the counter. */
  predicate CodesWellFormed(codes: seq<SmsCode>, nextId: nat)
  {
    && (forall i :: 0 <= i < |codes| ==> codes[i].id < nextId)
    && (forall i, j :: 0 <= i < j < |codes| ==> codes[i].id < codes[j].id)
  }

  /** Phone is unique (the map key is the phone), ids are unique, and each optional identifier is unique where present. */
  predicate UsersWellFormed(users: map<string, User>, nextId: nat)
  {
    && (forall p :: p in users ==> users[p].phone == p && users[p].id < nextId)
    && (forall p, q :: p in users && q in users && p != q ==> users[p].id != users[q].id)
    && (forall p, q, f :: p in users && q in users && p != q && Ident(users[p], f).Some? ==> Ident(users[p], f) != Ident(users[q], f))
  }

  /** Saving `u` would violate a unique constraint of the user table. */
  predicate Conflicts(users: map<string, User>, u: User)
  {
    u.phone in users || exists p, f :: p in users && Ident(u, f).Some? && Ident(users[p], f) == Ident(u, f)
  }

  /** Exactly one user has a given phone: the one stored under it. */
  lemma PhoneIdentifiesUser(users: map<string, User>, nextId: nat, p: string, q: string)
    requires UsersWellFormed(users, nextId) && p in users && q in users
    ensures UserText(users[p]) == UserText(users[q]) <==> p == q
  {
  }

  class Database {
    var codes: seq<SmsCode>
    var users: map<string, User>
    var nextCodeId: nat
    var nextUserId: nat

    ghost predicate Valid()
      reads this
    {
      CodesWellFormed(codes, nextCodeId) && UsersWellFormed(users, nextUserId)
    }

    constructor ()
      ensures Valid() && codes == [] && users == map[]
    {
      codes, users := [], map[];
      nextCodeId, nextUserId := 1, 1;
    }

    /** `SmsCode.objects.create(phone=..., code=...)`: a new unused record stamped with the current time. */
    method InsertCode(phone: string, code: string, now: int) returns (rec: SmsCode)
      requires Valid()
      modifies this
      ensures Valid()
      ensures rec == SmsCode(old(nextCodeId), phone, code, now, false)
      ensures codes == old(codes) + [rec]
      ensures users == old(users) && nextUserId == old(nextUserId)
    {
      rec := SmsCode(nextCodeId, phone, code, now, false);
      codes := codes + [rec];
      nextCodeId := nextCodeId + 1;
    }

    /** `sms_code.is_used = True; sms_code.save()`. */
    method MarkUsed(i: nat)
      requires Valid() && i < |codes|
      modifies this
      ensures Valid()
      ensures codes == MarkedUsed(old(codes), i)
      ensures users == old(users) && nextCodeId == old(nextCodeId) && nextUserId == old(nextUserId)
    {
      codes := MarkedUsed(codes, i);
    }

    /** `User.objects.get_or_create(phone=phone)`: the existing user, or a new default one. */
    method GetOrCreateUser(phone: string, now: int) returns (u: User, created: bool)
      requires Valid()
      modifies this
      ensures Valid()
      ensures created <==> phone !in old(users)
      ensures !created ==> u == old(users)[phone] && users == old(users) && nextUserId == old(nextUserId)
      ensures created ==> u == DefaultUser(old(nextUserId), phone, now) && users == old(users)[phone := u]
      ensures created ==> nextUserId == old(nextUserId) + 1
      ensures phone in users && users[phone] == u
      ensures codes == old(codes) && nextCodeId == old(nextCodeId)
    {
      if phone in users {
        u, created := users[phone], false;
      } else {
        u, created := DefaultUser(nextUserId, phone, now), true;
        users := users[phone := u];
        nextUserId := nextUserId + 1;
      }
    }

    /**
     * `UserManager.create_user`: refuses an empty phone, builds the user from
     * the phone and the extra fields, and saves it unless a unique column
     * already holds one of its values.
     */
    method CreateUser(phone: string, password: Option<string>, extra: ExtraFields, now: int)
      returns (r: Result<User, CreateUserError>)
      requires Valid()
      modifies this
      ensures Valid()
      ensures var built := NewUser(old(nextUserId), phone, password, extra, now);
        if built.Failure? then r == built && users == old(users) && nextUserId == old(nextUserId)
        else if Conflicts(old(users), built.value) then r == Failure(IntegrityError) && users == old(users) && nextUserId == old(nextUserId)
        else r == built && users == old(users)[phone := built.value] && nextUserId == old(nextUserId) + 1
      ensures codes == old(codes) && nextCodeId == old(nextCodeId)
    {
      r := NewUser(nextUserId, phone, password, extra, now);
      if r.Success? {
        if Conflicts(users, r.value) {
          r := Failure(IntegrityError);
        } else {
          var u := r.value;
          users := users[phone := u];
          nextUserId := nextUserId + 1;
        }
      }
    }

    /** `UserManager.create_superuser`: `is_staff` and `is_superuser` default to true, then as create_user. */
    method CreateSuperuser(phone: string, password: Option<string>, extra: ExtraFields, now: int)
      returns (r: Result<User, CreateUserError>)
      requires Valid()
      modifies this
      ensures Valid()
      ensures var built := NewUser(old(nextUserId), phone, password, SuperuserFields(extra), now);
        if built.Failure? then r == built && users == old(users) && nextUserId == old(nextUserId)
        else if Conflicts(old(users), built.value) then r == Failure(IntegrityError) && users == old(users) && nextUserId == old(nextUserId)
        else r == built && users == old(users)[phone := built.value] && nextUserId == old(nextUserId) + 1
      ensures codes == old(codes) && nextCodeId == old(nextCodeId)
    {
      r := CreateUser(phone, password, SuperuserFields(extra), now);
    }
  }
}
