# SMS-code login and object-storage facade, modelled in Dafny

This project models the two stateful parts of a Django service's `users` app.

**One-time SMS codes and users** (`users/serializers.py`, `users/models.py`).
- Sending a code checks that the phone is 11 digits. It then appends an unused code record: `"123456"` in test mode, otherwise `SMS_CODE_LENGTH` random digits.
- Logging in checks the phone and the code field. It then selects the most recently created unused record that matches the phone and the code.
- Login is refused with the code error when no record matches, and with the expiry error when the selected record has expired. Expiry is strict: `now > created_at + SMS_CODE_EXPIRE_MINUTES`.
- On success, login marks exactly that record used and gets or creates the user with that phone.
- `UserManager.create_user` and `create_superuser` are modelled too, with `setdefault` semantics for the staff and superuser flags. So are the unique columns of the user table and both `__str__` methods.

**Object keys and results of the storage facade** (`users/oss_service.py`).
- An object key is `folder/YYYY/MM/DD/<uuid hex><ext>`. The extension follows `os.path.splitext` on POSIX, and the folder defaults to `uploads`.
- The date is the server's local date (`datetime.now()`), not UTC.
- A public URL is the configured prefix, a `/` and the key.
- Upload and delete map the remote answer onto a `{success, ...}` result and never raise. A put or remove takes effect when the SDK returns a 2xx answer (it raises on any other). There is no size limit, image-format check or filename check in this code, and the model adds none.

Layout:
- `wrappers.dfy`: `Option` and `Result`.
- `numerals.dfy`: zero-padded numerals and their round trip. These are shared by the `%032x` of the UUID and the `%Y/%m/%d` of the date.
- `models.dfy` (module `Models`): the records, expiry, `__str__`, `create_user`/`create_superuser`, and the class `Database`. Its fields are the code table (a sequence in insertion order), the user table (a map keyed by phone), and the two id counters.
- `serializers.dfy` (module `Serializers`): the send and login flows. The query for the latest unused code is a loop proved against the function `LatestMatch`.
- `oss_service.dfy` (module `OssService`): key and URL composition, result mapping, and the class `StorageService` whose remote bucket is a map from key to bytes.

Clocks, random draws, the UUID and every remote answer are parameters. Instants are integers counting microseconds, the resolution of Python's `datetime`. `SMS_CODE_LENGTH` and `SMS_CODE_EXPIRE_MINUTES` are the fields of a `Settings` value.

## Model

| member | source | states |
|---|---|---|
| Models.IsExpired | users/models.py:59-62 | `is_expired`: true exactly when the current instant is strictly after `created_at` plus `SMS_CODE_EXPIRE_MINUTES` minutes; its boundary and monotonicity are the next two rows |
| Models.ExpiryBoundary | users/models.py:59-62 | a code is still valid at exactly `created_at + SMS_CODE_EXPIRE_MINUTES` and expired one microsecond later |
| Models.ExpiryMonotone | users/models.py:59-62 | once expired, a code stays expired as the clock advances |
| Models.SmsCodeText | users/models.py:56-57 | `SmsCode.__str__`: the phone, `" - "` and the code; the next row proves each part can be read back |
| Models.SmsCodeTextParts | users/models.py:56-57 | `str(SmsCode)` is the phone, `" - "` and the code, each recoverable at its position |
| Models.UserText | users/models.py:34-35 | `User.__str__` is the phone; the next row proves it identifies the user |
| Models.PhoneIdentifiesUser | users/models.py:34-35 | in a well-formed user table, `str(User)` (the phone) identifies exactly one user |
| Models.MarkedUsed | users/serializers.py:96-97 | saving `is_used = True` sets the flag on that record and leaves every other record unchanged |
| Models.NewUser | users/models.py:7-13 | an empty phone raises the ValueError; otherwise the user has the given phone, every supplied extra field is stored, every other field has the model default, and a missing password is unusable |
| Models.NewUserDefaults | users/models.py:22-26 | a new user without extra fields is active, not staff, not superuser, and has no openid, apple_id or google_id |
| Models.SetDefault | users/models.py:16-17 | `setdefault` keeps a present key's value, adds an absent key with the default, and changes no other key |
| Models.SuperuserFlags | users/models.py:15-18 | a superuser is staff and superuser unless the caller supplied those flags, in which case the supplied values win |
| Models.Database.InsertCode | users/models.py:50-54 | creating a code appends one record with a fresh id, the current time and `is_used` false, and changes nothing else |
| Models.Database.MarkUsed | users/serializers.py:96-97 | only the selected record becomes used; the user table is unchanged |
| Models.Database.GetOrCreateUser | users/serializers.py:101 | returns the stored user with that phone, or stores and returns a new default user; afterwards the phone maps to the returned user |
| Models.Database.CreateUser | users/models.py:7-13 | refuses an empty phone, builds the user, and saves it unless the phone or a non-null openid, apple_id or google_id is already taken; the table stays well formed (unique phone, ids and identifiers) |
| Models.Database.CreateSuperuser | users/models.py:15-18 | `create_user` applied to the extra fields with `is_staff` and `is_superuser` defaulted to true |
| Serializers.ValidPhone | users/serializers.py:17-21 | `validate_phone` of both serializers (the same check again at lines 49-53): every character an ASCII digit and exactly 11 of them; characterised by the next row |
| Serializers.ValidPhoneNumerals | users/serializers.py:17-21 | a phone passes if and only if it has 11 characters and is the zero-padded decimal writing of the number it denotes, which is below 10^11: the accepted phones are exactly the 11-digit decimal numerals |
| Serializers.ValidCodeField | users/serializers.py:47 | the code field is required and at most 6 characters long; `OverlongCodesRefused` shows what that means for longer generated codes |
| Serializers.NewCode | users/serializers.py:29-33 | in test mode the code is `"123456"`; otherwise it has `SMS_CODE_LENGTH` characters, all decimal digits |
| Serializers.SendCode | users/serializers.py:17-43 | an invalid phone changes nothing; a valid one appends exactly one unused record with that phone and code, leaves every other record and the users unchanged, and returns that phone and code |
| Serializers.LatestMatchSpec | users/serializers.py:65-74 | the selection finds nothing exactly when no unused record matches phone and code, and otherwise finds a matching record with the greatest `created_at` |
| Serializers.LatestMatchUnique | users/serializers.py:65-74 | at most one record is the latest match |
| Serializers.LatestMatchIff | users/serializers.py:65-74 | the selection returns record `i` if and only if `i` is the latest unused match |
| Serializers.FindLatestUnused | users/serializers.py:65-74 | the scan over the records returns exactly the latest unused match |
| Serializers.LoginCheck | users/serializers.py:55-87 | the outcome of `is_valid`: the field error exactly when the phone or the code field is invalid, and on success an index of a stored, unused record with this phone and code that has not expired; the three Iff rows below characterise each outcome |
| Serializers.LoginCheckSuccessIff | users/serializers.py:49-87 | validation accepts record `i` if and only if the phone and code fields are valid, `i` is the latest unused match and `i` has not expired |
| Serializers.LoginCheckMismatchIff | users/serializers.py:74-78 | validation fails with the code error if and only if the fields are valid and no unused record matches |
| Serializers.LoginCheckExpiredIff | users/serializers.py:80-83 | validation fails with the expiry error if and only if the fields are valid and the latest unused match has expired |
| Serializers.Validate | users/serializers.py:55-87 | the validation method returns what the specification of selection and expiry prescribes, and changes nothing |
| Serializers.CompleteLogin | users/serializers.py:89-101 | marks exactly the selected record used and returns the existing or a newly created user with that phone |
| Serializers.Login | users/serializers.py:45-101 | a refused login changes nothing; an accepted one consumes exactly the selected record and returns the only user with that phone, adding it to the user table when it is new and leaving every other user unchanged |
| Serializers.ConsumedNeverSelected | users/serializers.py:65-97 | a record once marked used is never accepted again, for any phone, code or time |
| Serializers.SecondLoginRefused | users/serializers.py:65-97 | when the consumed record was the only match, the same phone and code then fail with the code error |
| Serializers.AnotherRecordMatchesAgain | users/serializers.py:65-97 | if another unused matching record exists, the same phone and code no longer fail with the code error |
| Serializers.NewestRecordSelected | users/serializers.py:36-74 | a record issued no earlier than every other match is the one selected |
| Serializers.TestModeLoginOnce | users/serializers.py:29-97 | a test-mode code lets one login within the expiry window succeed, and a second login with it fails with the code error |
| Serializers.OverlongCodesRefused | users/serializers.py:33-47 | with `SMS_CODE_LENGTH` above 6, a random code never passes the login serializer's `max_length=6` |
| OssService.SplitExt | users/oss_service.py:57 | `os.path.splitext` on POSIX: split at the last dot of the last path component when a non-dot character precedes it there; its properties are the next three rows |
| OssService.SplitExtJoin | users/oss_service.py:57 | the root and the extension together give back the filename |
| OssService.ExtensionShape | users/oss_service.py:57 | the extension is empty or a suffix of the filename starting with its only dot and holding no `/`, case preserved |
| OssService.ExtensionEmptyIff | users/oss_service.py:57 | the extension is empty if and only if every dot of the last path component has only dots before it (no dot, or leading dots as in `.hidden`) |
| OssService.UuidHex | users/oss_service.py:60 | `uuid4().hex`: the 128-bit integer as a zero-padded lower-case hex numeral; the next row proves its shape and that it reads back |
| OssService.UuidHexShape | users/oss_service.py:60 | the unique part is exactly 32 lower-case hex characters and reads back as the UUID's integer |
| OssService.DatePath | users/oss_service.py:63 | `strftime('%Y/%m/%d')` of the local date; the next row proves its shape and that it parses back |
| OssService.DatePathRoundTrip | users/oss_service.py:63 | the date path is a zero-padded 4-digit year, 2-digit month and 2-digit day joined by `/`, and parses back to the date |
| OssService.ObjectKey | users/oss_service.py:45-68 | `generate_object_key`: the folder, `/`, the date path, `/`, the UUID hex and the extension; the next rows prove it can be taken apart and that distinct UUIDs give distinct keys |
| OssService.ObjectKeyDecodes | users/oss_service.py:45-68 | a key splits into the folder, `/`, the date, `/`, the 32 hex digits of the UUID, and the extension |
| OssService.DefaultFolderKey | users/oss_service.py:45 | with the default folder, every key starts with `uploads/` |
| OssService.ObjectKeysDistinct | users/oss_service.py:57-66 | two keys in one folder on one day differ whenever their UUIDs differ |
| OssService.KeyWithoutExtension | users/oss_service.py:57-66 | a filename without an extension gives a key that ends in the bare hex digits |
| OssService.UploadResultOf | users/oss_service.py:98-119 | the upload result mapping with the failure branch corrected (see Findings): success on 200, otherwise the status or the exception text; proved in `UploadResultsAgree` |
| OssService.UploadStatusLostAsWritten | users/oss_service.py:107-119 | as written, a put answered with status 203 is reported with an AttributeError text instead of the status |
| OssService.UploadResultsAgree | users/oss_service.py:98-119 | an upload succeeds if and only if the put answered 200, with the key, its URL, the unchanged filename and the byte length; an exception becomes a failure with its text; a non-200 status becomes a failure carrying that status |
| OssService.DeleteResultOf | users/oss_service.py:141-158 | the delete result mapping with the success test corrected (see Findings): success whenever the remove took effect, otherwise the status or the exception text |
| OssService.DeleteResultIff | users/oss_service.py:131-158 | the corrected delete succeeds, carrying the same key, if and only if the remove took effect (a 2xx answer); an exception becomes a failure with its text and any other status a failure with that status; it differs from the code as written exactly on 2xx answers other than 200 |
| OssService.DeleteResultMatchesBucket | users/oss_service.py:131-158 | for a stored object, the corrected delete reports success if and only if the object is gone from the bucket afterwards |
| OssService.DeleteNoContentAsWritten | users/oss_service.py:141-152 | as written, a remove answered 204 takes the object away but is reported as a failure carrying 204 |
| OssService.PutThenDeleteRestores | users/oss_service.py:95-145 | a put of a new key and a remove of it, both taking effect, leave the bucket as it was |
| OssService.StorageService.constructor | users/oss_service.py:32-33 | the service keeps the configured bucket name and URL prefix |
| OssService.StorageService.FileUrl | users/oss_service.py:160-170 | `get_file_url`: the prefix, `/` and the key; the next row proves the key can be read back |
| OssService.StorageService.FileUrlDecodes | users/oss_service.py:160-170 | the URL is the prefix, `/` and the key, and the key can be read back from it |
| OssService.StorageService.UploadFile | users/oss_service.py:70-119 | the result is the corrected mapping `UploadResultOf` (see Findings), not the as-written lines 107-112, for the generated key; the bucket holds the bytes under that key exactly when the put took effect (a 2xx answer) |
| OssService.StorageService.DeleteFile | users/oss_service.py:121-158 | the result is the corrected mapping `DeleteResultOf` (see Findings), and the key is gone from the bucket exactly when the remove took effect (a 2xx answer) |

## Left out

- HTTP views, Swagger schemas, cookies, logout and token refresh (`users/views.py`) are not modelled: they are framework glue over a library.
- JWT minting (`get_tokens_for_user`, users/models.py:37-44) is a foreign library call. Login returns the user and no tokens.
- The SDK client and credential setup, and the module-level service that is None when setup fails (users/oss_service.py:21-43, 173-178), are vendor and environment I/O. The service is built from its two settings and the bucket's current contents.
- `uuid4`, `random.choices`, `datetime.now` and `timezone.now` are parameters. The model knows only their ranges: a 128-bit integer, indices below 10, a calendar date, and an instant.
- Verifying a code and marking it used are two steps with no lock between them. Concurrent logins are not modelled; the model shows sequential one-time use only.
- Base64, data-URI, multipart and raw-body image upload, image decoding and size limits do not occur in the modelled files.
- The network test clients, the gunicorn configuration, `polls/` and `group/` are outside the core.
- Serializers.ValidPhone: Python's `str.isdigit` also accepts non-ASCII decimal digits (full-width, Arabic-Indic, superscripts); the model accepts only `'0'..'9'`.
- Serializers.ValidPhone: DRF's trimming of surrounding whitespace is not modelled; inputs are taken as already trimmed. The `max_length=20` of the phone fields is implied by the 11-digit rule.
- Serializers.ValidCodeField: DRF also trims the code field before its `max_length=6` check; the model takes the code as already trimmed.
- Logging (`logger` calls throughout, and the loop at users/serializers.py:71-72 that only logs the matching records) has no effect on state or results and is not modelled.
- Serializers.LatestMatch: when two unused matches have the same `created_at`, the model picks the one inserted later; the database does not promise an order among ties.
- Models.NewUser: only the six fields `is_active`, `is_staff`, `is_superuser`, `openid`, `apple_id` and `google_id` are accepted as extra fields. Every other keyword is refused, including real fields of `User` such as `id`, `last_login` and `date_joined`, which Django would accept and store. Django's coercion of a value of the wrong kind is not modelled: such a value is refused.
- Models.NewUser: password hashing is not modelled; `Hashed(secret)` stands for the hash of the given password.
- Models.Database.GetOrCreateUser: the login path saves a row without `set_password`; the model records this as a blank password.
- Serializers.CompleteLogin: if creating the user failed after the record was marked used, the mark would stay. Database failures inside login are not modelled.
- OssService.DatePath: years before 1000 are padded to four digits (glibc's `%Y` does not pad them), and month lengths are not checked.
- OssService.SplitExt: only the POSIX rules are modelled. Windows would also split at `\`.
- OssService.StorageService.UploadFile: the bucket changes exactly when the put returned a 2xx status, since the SDK raises on any other answer. A remote write that took effect although the call raised (a lost answer, a timeout) is not captured. A 2xx answer other than 200 stores the object and is still reported as a failure, as the code does.
- OssService.StorageService.DeleteFile: the bucket changes exactly when the remove returned a 2xx status. A removal that took effect although the call raised is not captured.
- The bucket name is kept but plays no part in the model, since there is only one bucket.

## Findings

| source | as written | input that shows it | evidently intended | confidence | as-written member | corrected member |
|---|---|---|---|---|---|---|
| users/oss_service.py:141-152 | success is tested as `status_code == 200`, but the store answers a successful DeleteObject with 204 No Content; such a delete removes the object and is reported as `{'success': False, 'error': 204}` | a remove of a stored object answered with status 204 | success whenever the remove took effect (any 2xx answer) | medium, not executed | OssService.DeleteResultAsWritten (shown by OssService.DeleteNoContentAsWritten) | OssService.DeleteResultOf (proved in OssService.DeleteResultIff and OssService.DeleteResultMatchesBucket, used by OssService.StorageService.DeleteFile) |
| users/oss_service.py:107-112 | the failure branch returns `result.status_code`, but the oss2 put result carries its status as `status` (line 98); the read raises AttributeError and the handler at lines 114-119 reports that exception's text instead of the status | a put answered with status 203 | a failure whose `error` is the status 203 | medium, not executed | OssService.UploadResultAsWritten (shown by OssService.UploadStatusLostAsWritten) | OssService.UploadResultOf (proved in OssService.UploadResultsAgree, used by OssService.StorageService.UploadFile) |
