# menu-digital core in Dafny

This project models the core of menu-digital, a small restaurant-ordering web app. It covers:

- the server-side rules around its SQL;
- the login and session guards;
- two list transformations that run in the admin pages of the browser.

The modules, in order of dependency:

- `Wrappers`, `JsonData`, `Errors`: `Option`/`Result`, a JSON value type, and the error classes with their HTTP status codes.
- `Text`, `Numeric`: the JavaScript string operations the rules rely on:
  - `trim`;
  - the trailing-blank `replace`;
  - UTF-16 length;
  - `split`/`join`;
  - the number conversion of numeric strings;
  - `Math.round`-based precision.
- `Validator`: `validator(obj, keys)`:
  - the JSON clone;
  - the fixed catalogue of per-field rules;
  - assembly of the object schema from the requested keys;
  - strip-unknown validation with a per-call requiredness map;
  - the first-error mapping to a `ValidationError` with type and key;
  - a requested key with no catalogue entry, modelled as the crash it is (`TypeErrorCrash`).
- `ValidatorFacts`, `FieldFacts`: what a validation result guarantees, field by field and for whole objects.
- `SchemaCache`: the schema cache keyed by the comma-joined key list, and a cache keyed by the list itself.
- `Store`: a table as a sequence of rows plus its id sequence. It covers inserts, filters, updates and `ROLLBACK`. Rows roll back; the sequence does not. It also holds the `integer` and `decimal(10, 2)` column types and their out-of-range errors (SQLSTATE 22003), and the `varchar(n)` column type with its too-long error (SQLSTATE 22001).
- `Users`, `Categories`, `Ingredients`, `Products`, `Orders`: the accessors of each model file as pure functions from a table state to a result and a new table state.
- `Auth`, `Routes`, `OrdersRoute`, `CategoriesRoute`:
  - `canRequest`, `injectUser`, `comparePasswords`;
  - the login handler and the session renewal;
  - the middleware chains of the orders and categories routes, including the transaction of order placement and its error mapping.
- `JsObject`, `Grouping`, `Statistics`:
  - the flatten / group-by-`order_id` / de-duplicate transformation of the admin order pages;
  - the own-key order of the JavaScript object it groups into;
  - the monthly and per-product counts of the statistics page.

Some behaviour is passed in as parameters:

- password hashing and comparison;
- session lookup, creation and renewal;
- the clock (`now`);
- the month of a timestamp;
- the language of the database server's messages (`Locale`).

## Model

| member | source | states |
|---|---|---|
| Validator.ItemKey | models/validator.js:92-93 | the error key of an array element is "object" exactly for index 0 (falsy), and the index itself otherwise |
| Validator.FirstFailedCheck | models/validator.js:104-117 | the reported string rule is the first one, in declaration order, the value fails; none is reported exactly when all hold |
| Validator.FirstFailedRule | models/validator.js:206-218 | the reported number rule is the first failing one in declaration order; none exactly when all hold |
| Validator.FirstDuplicate | models/validator.js:350-362 | `unique` reports the first position whose value already occurred earlier, and nothing exactly when no value repeats |
| Validator.CheckFields | models/validator.js:75-79 | the validated object keeps only keys that the input had and that were requested (stripUnknown) |
| ValidatorFacts.CoerceNormalises | models/validator.js:142-152 | `trim` / the trailing-blank `replace` always yield a string in the coercion's normal form |
| ValidatorFacts.CoerceFixes | models/validator.js:142-152 | a string already in normal form is not changed by the coercion |
| ValidatorFacts.CheckValueSound | models/validator.js:103-363 | every value a field's rule returns satisfies that rule's declarative description |
| ValidatorFacts.CheckValueFixes | models/validator.js:103-363 | a value that already satisfies its rule is returned unchanged |
| ValidatorFacts.CheckValueIdempotent | models/validator.js:103-363 | checking a field's returned value again gives the same result |
| ValidatorFacts.FirstDuplicateDistinct | models/validator.js:350-362 | `unique` finds nothing if and only if the elements are pairwise distinct |
| ValidatorFacts.CheckFieldsSuccess | models/validator.js:68-79 | on success every kept key's value is its rule's output on the input value; every requested key present in the input is kept; every mandatory key was present |
| ValidatorFacts.CheckFieldsFixes | models/validator.js:68-79 | when each present requested key conforms and each mandatory one is present, the result is the input restricted to the requested keys |
| ValidatorFacts.CheckFieldsFirstError | models/validator.js:89-98 | a failure is exactly the failure of the first key, in schema order, whose check fails, and all keys before it passed |
| ValidatorFacts.CheckFieldsFailsAt | models/validator.js:89-98 | conversely, the first failing key decides the reported error whatever the later keys hold |
| ValidatorFacts.ValidateAcceptsObjects | models/validator.js:50-70 | only a JSON-representable object whose requested keys are all catalogued can validate |
| ValidatorFacts.ValidateSuccess | models/validator.js:63-87 | a validated object is non-empty, holds only requested keys the input had, each conforming to its rule, keeps every requested key the input had, and every mandatory key was present |
| ValidatorFacts.ValidateStrips | models/validator.js:75-79 | an input whose requested keys conform and whose mandatory keys are present is returned with only its unrequested keys removed |
| ValidatorFacts.ValidateIdempotent | models/validator.js:50-101 | validating a validated object again returns it unchanged |
| ValidatorFacts.ValidateEmptyObject | models/validator.js:10-13 | an empty object fails with `any.required` on a leading mandatory key, and with `object.min` on key "object" when no key is mandatory |
| ValidatorFacts.ValidateRequiresMandatory | models/validator.js:75-79 | validation fails whenever a key marked "required" is absent |
| ValidatorFacts.ValidateMissingRequired | models/validator.js:89-97 | an absent mandatory key, all keys before it passing, fails with type `any.required` and the key's own name |
| FieldFacts.StatusEnums | models/validator.js:176-293 | the enumerations of `order_status`, `product_status`, `category_status` and `features` |
| FieldFacts.StatusNeverMandatory | models/validator.js:280-293 | the requiredness toggle sits on the element schema, so a status array key is never mandatory |
| FieldFacts.EnumItemsOutcome | models/validator.js:280-293 | enum elements pass unchanged iff all are allowed; otherwise the first disallowed one fails with `any.only` at its position |
| FieldFacts.StatusListOutcome | models/validator.js:89-98 | a status list validates iff every element is in its enum and is returned unchanged; else the first outside element is reported with `any.only` and its index key |
| FieldFacts.BadFirstStatus | models/validator.js:92-93 | an invalid element at index 0 is reported with key "object" |
| FieldFacts.BadSecondStatus | models/validator.js:92-93 | an invalid element at index 1 is reported with key 1 |
| FieldFacts.ConformsIsShape | models/validator.js:103-363 | for every catalogued field, the values its rule accepts and returns unchanged are exactly the values of the field's documented shape |
| FieldFacts.UsernameShape | models/validator.js:104-117 | a username is 1–30 characters drawn from ASCII letters, U+00C0–U+017F (× and ÷ included), digits or spaces, with no leading or trailing blank |
| FieldFacts.PasswordShape | models/validator.js:119-127 | a password is 8–72 UTF-16 units with no leading or trailing blank |
| FieldFacts.SessionIdShape | models/validator.js:129-140 | a session id is exactly 96 ASCII letters and digits |
| FieldFacts.NameShape | models/validator.js:142-164 | a name starts visible, has no trailing blank-like character or NUL, and is 1–128 UTF-16 units long |
| FieldFacts.PriceShape | models/validator.js:206-218 | a price is a number in [0, 99999999.99] with at most 10 decimal places |
| FieldFacts.IntegerShape | models/validator.js:220-228 | `value`, `id`, `product_id`, `table_number` accept exactly the integral numbers |
| FieldFacts.PictureShape | models/validator.js:230-240 | a picture starts with `http://` or `https://` and continues with at least one character that is neither a JavaScript blank nor a control, format, private-use or noncharacter code point; the rest of the URI grammar is not checked (see Left out) |
| FieldFacts.IdListShape | models/validator.js:242-253 | `ingredients_ids` is any list of positive integers |
| FieldFacts.EnumArrayShape | models/validator.js:255-268 | an enumerated array holds only strings of its enum |
| FieldFacts.ObservationShape | models/validator.js:315-330 | an observation has at most 160 UTF-16 units, no trailing blank-like character or NUL, and may be "" |
| FieldFacts.ExtraShape | models/validator.js:336-339 | an extra ingredient is exactly a positive-integer `ingredient_id` and `multiplied` and a positive `price` |
| FieldFacts.ExtrasShape | models/validator.js:332-348 | `additional_ingredients` is a list of at least one such extra |
| FieldFacts.IdSetShape | models/validator.js:350-362 | `removed_ingredients` is a list of distinct positive integers |
| FieldFacts.ValidatedShapes | models/validator.js:75-100 | every field of a validated object has its field's shape |
| FieldFacts.ShapedInputPasses | models/validator.js:75-87 | an input whose requested fields have their shapes, with its mandatory fields and at least one requested field present, passes with only unrequested keys removed |
| FieldFacts.NumberOfText | models/validator.js:206-218 | a numeric string is checked exactly as the number it converts to |
| FieldFacts.WholePriceConforms | models/validator.js:206-218 | every whole number up to 99999999 is a valid price |
| FieldFacts.PriceFromText | models/validator.js:206-218 | a price sent as the decimal text of a whole number is returned as that number |
| Numeric.ParseNatText | models/validator.js:206-218 | the decimal text of a natural number converts back to that number |
| Numeric.RoundToHasPlaces | models/validator.js:209 | rounding by `precision(10)` yields at most 10 decimal places |
| Numeric.RoundToFixes | models/validator.js:209 | a number that already has at most that many places is not changed by the rounding |
| Numeric.RoundToWithin | models/validator.js:209-211 | rounding never moves a number out of an integer interval containing it |
| Text.Trim | models/validator.js:110 | `trim` leaves no blank at either end and changes nothing when there is none |
| Text.StripTrailingBlanksAndNul | models/validator.js:149-152 | the `replace` leaves no NUL and no trailing blank-like character, adds no character, and changes nothing when there was none |
| Text.Utf16Length | models/validator.js:153-154 | a length is counted in UTF-16 units, between one and two per code point |
| Text.Split | pages/api/v1/orders/index.public.js:27-28 | `split(",")` yields at least one part and no part contains a comma |
| Text.SplitJoin | pages/api/v1/orders/index.public.js:27-28 | joining the parts of a split with "," gives the original string back |
| Text.JoinSplit | pages/api/v1/orders/index.public.js:27-28 | splitting a join of comma-free parts gives the parts back |
| Store.Varchar | infra/migrations/1722863724680_create-categories-table.js:8-10 | a `varchar(n)` column accepts a value whose characters past the n-th are all spaces and stores it cut to n characters; a value that already fits is stored unchanged |
| Store.ShortMembers | infra/migrations/1722863724680_create-categories-table.js:14-16 | for a set of allowed words all shorter than the column, a value is an allowed word iff it fits and its stored form is one, so the CHECK sees the value as sent |
| Store.Decimal2 | infra/migrations/1722519969967_create-additional-ingredients-table.js:25-28 | a `decimal(10, 2)` column stores the value rounded to two places, moving it by at most half a cent |
| Store.Decimal2Places | infra/migrations/1722519969967_create-additional-ingredients-table.js:25-28 | the stored value has at most two decimal places |
| Store.Decimal2Keeps | infra/migrations/1722519969967_create-additional-ingredients-table.js:25-28 | a value with at most two decimal places is stored unchanged |
| Store.Decimal2Idempotent | infra/migrations/1722519969967_create-additional-ingredients-table.js:25-28 | storing a stored value again changes nothing |
| SchemaCache.JoinedValidate | models/validator.js:63-87 | the cache as written only ever adds the entry for this call's joined key and keeps every assembled schema under its own key |
| SchemaCache.CacheKeyInjective | models/validator.js:63 | for non-empty, comma-free names the joined key determines the list of names |
| SchemaCache.CatalogueNamesSeparable | models/validator.js:103-363 | every catalogued field name is non-empty and comma-free |
| SchemaCache.JoinedValidateTransparent | models/validator.js:63-79 | for such names a call through the cache as written returns what validation without a cache returns |
| SchemaCache.JoinedRun | models/validator.js:63-79 | any sequence of calls with such names returns the uncached results, in order |
| SchemaCache.RunSchemaReportsValidation | models/validator.js:75-98 | with catalogued names every validation failure is a `ValidationError`, never a crash |
| SchemaCache.JoinedCollision | models/validator.js:63-73 | after a call for `name` and `price`, a call whose single key is "name,price" reuses that schema instead of crashing on its unknown key |
| SchemaCache.KeyedValidate | models/validator.js:63-87 | a cache keyed by the list of names only adds this call's entry and keeps every schema under its own key |
| SchemaCache.KeyedValidateTransparent | models/validator.js:63-79 | the keyed cache returns the uncached result for every input |
| SchemaCache.KeyedRun | models/validator.js:63-79 | any sequence of calls through the keyed cache returns the uncached results, in order |
| Auth.CanRequest | models/authorization.js:3-25 | `next` is called with the context unchanged iff there is a user holding the feature; a missing user is USER_NOT_FOUND (checked first), a missing feature FEATURE_NOT_FOUND |
| Auth.CanRequestMonotone | models/authorization.js:15-21 | a user with more features passes every guard a user with fewer passes |
| Auth.AddFeatureGrants | models/user.js:93-107 | after `addFeatures(id, [f])` the stored user passes `canRequest(f)` |
| Auth.ComparePasswords | models/authentication.js:11-25 | PASSWORD_MISMATCH exactly when the compare primitive returns false |
| Auth.CompareOwnHash | models/authentication.js:11-25 | under a compare that recognises the hash, a password matches its own hash |
| Auth.InjectAuthenticatedUser | models/authentication.js:40-49 | succeeds iff the session lookup and the user lookup by its `user_id` succeed; sets that session and that user and keeps the rest of the context; a lookup failure propagates |
| Auth.InjectUser | models/authentication.js:27-38 | without a truthy `session_id` cookie the context passes untouched; otherwise the other context fields are kept |
| Auth.CookieValidation | models/validator.js:129-140 | the cookie validator accepts exactly a 96-character alphanumeric token, returns it unchanged, and otherwise raises a ValidationError |
| Auth.InjectUserRejectsBeforeLookup | models/authentication.js:28-32 | a malformed token fails with a ValidationError whatever the session store and users hold |
| Auth.InjectUserLooksUp | models/authentication.js:28-37 | a well-formed token leads to the session lookup with the cookies as sent |
| Auth.Login | pages/api/v1/sessions/index.public.js:19-52 | a validation error propagates; a success means both fields validated, the username was found, the password compared true, and the answer is 201 with a session created for the stored user's id |
| Auth.LoginFailsBeforeSession | pages/api/v1/sessions/index.public.js:30-49 | failures do not depend on session creation; an unknown username is NotFound whatever the compare says; a login never surfaces PASSWORD_MISMATCH |
| Auth.LoginWrongPassword | pages/api/v1/sessions/index.public.js:33-44 | a failed compare becomes DATA_MISMATCH |
| Auth.SignUpThenLogin | pages/api/v1/sessions/index.public.js:30-51 | after a sign-up, logging in with the same body opens a session for the new user |
| Auth.RenewSessionIfNecessary | pages/api/v1/user/index.js:24-40 | no session is Unauthorized; an expiry before `now` + 3 weeks replaces the session with its renewal, and any other context is left untouched |
| Auth.CurrentUser | pages/api/v1/user/index.js:18-22 | succeeds iff there is a session, answering 200 with the context's user |
| Auth.RenewSettles | pages/api/v1/user/index.js:29-37 | a renewal that pushes the expiry 3 weeks ahead is not repeated by a second request at the same instant |
| Auth.RenewMonotone | pages/api/v1/user/index.js:29-33 | a session renewed at `now` is renewed the same way at any later time |
| Users.Create | models/user.js:6-26 | validation errors propagate; a created user has the validated username, the hash of the password and the next id, and no stored username equals it ignoring case; a failure writes nothing |
| Users.Remove | models/user.js:28-41 | deletes exactly the rows with that username (case-sensitive), returning one of them iff there was one |
| Users.FindByUsername | models/user.js:43-66 | finds a row iff some username matches ignoring case; else FIND_BY_USERNAME:NOT_FOUND |
| Users.DottedCapitalFound | models/user.js:43-66 | a stored "İ" (U+0130) matches "i" ignoring case and is found by it, as `LOWER` lowers it to "i" |
| Users.FindById | models/user.js:68-91 | finds the row with that id iff there is one; else FIND_BY_ID:NOT_FOUND |
| Users.AddFeatures | models/user.js:93-107 | appends the features to the row with that id and refreshes `updated_at`; no other row changes |
| Users.ValidatedUsernameFits | infra/migrations/1722541530637_create-users-table.js:8-10 | a validated username fits `varchar(30)` and is stored unchanged |
| Users.PostSchemaShape | models/user.js:110-117 | a validated sign-up holds exactly username and password, each with its field shape |
| Users.CreateHasNoFeatures | models/user.js:11 | supplied features are stripped by validation, so a new user has none |
| Users.CreateValidatesFirst | models/user.js:7 | a rejected body fails the same way whatever is stored and whatever the hash |
| Users.CreateChecksBeforeHashing | models/user.js:8-9 | whether and how sign-up fails never depends on the hash function |
| Users.CreateThenFind | models/user.js:43-66 | a new user is found by its username in any letter case |
| Users.FindIgnoresCase | models/user.js:43-66 | lookups for usernames equal ignoring case give the same result |
| Users.AddFeaturesAppends | models/user.js:93-107 | the new features are the old ones followed by the added ones, duplicates kept |
| Categories.Create | models/category.js:4-17 | succeeds iff the name fits `varchar(128)` and its stored form is new; a too-long name is 22001 before the id is drawn, leaving the sequence untouched; the row has the next id and status "available"; a duplicate is the unique violation and writes nothing |
| Categories.FindById | models/category.js:56-77 | finds the row with that id iff there is one; else NotFound |
| Categories.Merge | models/category.js:21 | patched fields win, absent ones keep the old value, id and creation time stay, `updated_at` is refreshed |
| Categories.Edit | models/category.js:19-39 | NotFound before any write for an unknown id; otherwise succeeds iff the merged name and status fit their columns (22001 otherwise, name first), the status passes the CHECK and no other row has the name; then only that row changes, to the old row with the patch laid over it as the columns store it |
| Categories.ListByStatus | models/category.js:41-54 | `status = ANY($1)`: exactly the rows with a listed status; an empty array matches none |
| Categories.SetStatus | models/category.js:79-93 | a status longer than `varchar(10)` is 22001 whatever the id; otherwise an unknown id returns [] and writes nothing; only the status of the row with that id changes; for a stored id it succeeds iff the status is a category status, any other being the CHECK violation |
| Categories.LongNameKeepsSequence | models/category.js:4-17 | a 129-character name is 22001 and leaves the table, its sequence included, unchanged |
| Categories.LongStatusRefused | models/category.js:79-93 | an 11-character status is 22001 and changes nothing, whether or not the id is stored |
| Categories.CreateKeyed | models/category.js:4-17 | creation keeps ids unique and issued by the sequence |
| Categories.CreateChecked | infra/migrations/1722863724680_create-categories-table.js:14-16 | creation keeps every stored status within the CHECK constraint |
| Categories.EditKeepsInvariants | models/category.js:19-39 | edits keep ids unique and statuses within the constraint |
| Categories.Stored | infra/migrations/1722863724680_create-categories-table.js:8-16 | the row as the columns store it: name and status cut to their `varchar` lengths, unchanged when they fit |
| Categories.SetStatusKeepsInvariants | models/category.js:79-93 | setStatus keeps ids unique and statuses within the constraint |
| Categories.FindByIdExact | models/category.js:56-77 | in a keyed table findById returns exactly the row with that id |
| Categories.CreateThenFind | models/category.js:4-17 | a created category is found by its id |
| Categories.CreateThenList | models/category.js:41-54 | a new category is listed iff "available" is requested, and old rows are listed as before |
| Categories.EditPatchesOver | models/category.js:19-39 | the edited row is the old row with the patch laid over it |
| Ingredients.Create | models/ingredient.js:4-17 | succeeds iff `value` fits `integer`, the name fits `varchar(255)`, the price fits `decimal(10, 2)`, and there is a name whose stored form is new; stores that name, value and the price rounded to two places (absent ones as NULL) with the next id; an out-of-range value or price is SQLSTATE 22003, a bound value with a too-long name 22001, and a missing name the NOT NULL violation; a failure writes no row, and the id sequence advances iff `value`, name and price all fit their columns |
| Ingredients.FindById | models/ingredient.js:56-77 | finds the row with that id iff there is one; else NotFound |
| Ingredients.List | models/ingredient.js:42-54 | every row, each once |
| Ingredients.Merge | models/ingredient.js:21 | patched name, value and price win; absent ones keep the old value |
| Ingredients.Edit | models/ingredient.js:19-40 | NotFound for an unknown id; otherwise succeeds iff the merged value, name and price fit their columns (22003 or 22001 otherwise) and no other row has the merged name as stored; then only that row changes, to the merged row with its price rounded to two places |
| Ingredients.CreateKeyed | models/ingredient.js:4-17 | creation keeps ids unique |
| Ingredients.EditKeyed | models/ingredient.js:19-40 | edits keep ids unique |
| Ingredients.CreateThenFind | models/ingredient.js:4-54 | a new ingredient is found by its id, and the list gains exactly that row, last |
| Ingredients.EditPatchesOver | models/ingredient.js:19-40 | the edited row is the old row with the patch laid over it, its price rounded to two places |
| Ingredients.Stored | infra/migrations/1722519953564_create-ingredients-table.js:8-20 | the row as the columns store it: name cut to `varchar(255)`, price rounded to two places |
| Ingredients.FindByIdExact | models/ingredient.js:56-77 | in a keyed table findById returns exactly the row with that id |
| Products.Create | models/product.js:3-22 | as written the insert never stores a row and leaves the rows unchanged: an out-of-range ingredient id or a value too long for its column is that column's error in column order, raised before the id is drawn, (the price's 22003, or 22001, the name's first when the name is too long), and a row with name, category and price present and every value fitting is the NOT NULL violation of `category_id` |
| Products.CreateNeverStores | models/product.js:6-16 | the body `{product_name: "x", product_category: "teas", price: 1}` fails on the NOT NULL of `category_id`, so no product can be created |
| Products.CreateInCategory | infra/migrations/1722877182561_alter-products-table.js:2-8 | with `category_id` bound: succeeds iff every value fits its column (a too-long text is 22001 in column order), name, category, price and category id are present, the category is allowed, the name as stored is new and the category id names a stored category; the row has the next id, the stored name and picture, status "available" and the price rounded to two places; a missing category is the `products_category_id_fkey` violation; a failure writes no row |
| Products.LongNameRefused | infra/migrations/1722519937158_create-products-table.js:12-14 | a 129-character name fails with 22001 both as written and with `category_id` bound |
| Products.ValuesFitError | infra/migrations/1722519937158_create-products-table.js:12-38 | the error of the first text or price column that does not fit, the name's 22001 when the name is too long |
| Products.ListByStatus | models/product.js:24-41 | an empty list builds `IN (NULL)` and returns no rows |
| Products.ListByStatusIsFilter | models/product.js:24-41 | the result is exactly the rows with a listed status, in table order |
| Products.SetStatus | models/product.js:43-57 | a status longer than `varchar(10)` is 22001 whatever the name; otherwise no row with that name returns [], and when a row has it the update succeeds iff the status is a product status; then every row with that name gets the status, no other row changes, and the updated rows are returned |
| Products.CreateKeepsInvariants | infra/migrations/1722519937158_create-products-table.js:21-28 | creation with `category_id` keeps ids unique, category and status within their CHECK constraints, and every `category_id` naming a stored category |
| Products.SetStatusKeepsInvariants | models/product.js:43-57 | setStatus keeps ids unique and statuses within the constraint |
| Orders.Create | models/order.js:4-23 | succeeds iff `order_id`, `product_id` and `table_number` fit `integer`, the price fits `decimal(10, 2)`, the observation fits `varchar(256)`, and the product id is NULL or exists; then appends the new row with the values, the observation as stored, the price rounded to two places and status "pending"; a value that does not fit its column is a column error (22003 or 22001), any other failure the product foreign-key violation; a failure writes no row, and the id sequence advances iff every value fits its column |
| Orders.InsertExtra | models/order.js:27-46 | one `additional_ingredients` insert succeeds iff ingredient id and multiplier fit `integer`, the price fits `decimal(10, 2)`, and the ingredient and the order exist; a value out of range is 22003, otherwise the ingredient key is reported before the order key |
| Orders.InsertRemoved | models/order.js:50-67 | one `removed_ingredients` insert succeeds iff the ingredient id fits `integer` and the ingredient and the order exist; an unbindable id is 22003 quoting it and leaves the id sequence untouched |
| Orders.ExtraRows | models/order.js:35-42 | one link row per extra, in input order, with consecutive ids, the extra's ingredient and multiplier, and its price rounded to two places |
| Orders.RemovedRows | models/order.js:58-63 | one link row per removed id, in input order |
| Orders.InsertExtras | models/order.js:44-46 | the awaited inserts succeed iff every extra fits its columns and its ingredient and the order exist, appending exactly `ExtraRows`; a failure keeps earlier rows as a prefix and is a missing ingredient, a missing order or a column error, each only when that cause is present |
| Orders.InsertRemovedAll | models/order.js:65-67 | the same for the removed list: every id fits `integer` and names an ingredient, and the order exists |
| Orders.SetIngredients | models/order.js:25-69 | no list means no change; success iff both lists fit their columns and are linkable, appending their rows; on an existing order the failure comes from the first list that fails, as its missing ingredient or its 22003 |
| Orders.ProductsOf | models/order.js:76-86 | the product aggregate holds only the product the order references |
| Orders.ExtrasOf | models/order.js:87-99 | the extras aggregate is built only from link rows of this order, named by their ingredient |
| Orders.RemovedOf | models/order.js:100-108 | the removed aggregate is built only from link rows of this order |
| Orders.ListByStatus | models/order.js:71-118 | exactly the orders whose (non-NULL) status is listed, each as its own row with its product, extras and removed aggregates; an empty list lists nothing |
| Orders.FindById | models/order.js:120-167 | finds the order with that id iff there is one; else NotFound |
| Orders.SetStatus | models/order.js:169-191 | writes `status[0]` (NULL for []) into every row of the `order_id` batch and nothing else; a status longer than `varchar(10)` is 22001 whatever the batch; otherwise NotFound and no change when the batch is empty; for a stored batch it succeeds iff the status is an order status |
| Orders.CreateKeepsValid | models/order.js:4-23 | creation keeps ids unique, statuses checked and every link's foreign keys satisfied |
| Orders.SetIngredientsKeepsValid | models/order.js:25-69 | a successful setIngredients adds only links whose foreign keys hold |
| Orders.ExtrasHeadFailure | models/order.js:27-46 | a failing first extra fails for a cause that is present: its ingredient missing, the order missing, or a value not fitting |
| Orders.ExtrasTailFailure | models/order.js:44-46 | a cause present in the later extras is a cause present in the whole list |
| Orders.SameIdsKeepValid | models/order.js:169-191 | rewriting order rows without changing ids, keeping the status CHECK, keeps the state consistent |
| Orders.WriteStatus | models/order.js:169-191 | on a batch with rows, every row of the batch gets the status, nothing else changes, and the returned row is of that batch with that status |
| Orders.SetStatusKeepsValid | models/order.js:169-191 | setStatus keeps the state consistent |
| Orders.CreateThenFind | models/order.js:120-167 | a new order reads back with its columns and empty aggregates |
| Orders.ExtrasOfPlaced | models/order.js:125-137 | the links inserted for an order aggregate back to the requested extras, in request order, named from the ingredients table |
| Orders.RemovedOfPlaced | models/order.js:138-148 | the same for removed ingredients |
| Orders.SetIngredientsThenFind | models/order.js:120-167 | after setIngredients on a fresh order, findById reports exactly the requested extras and removals |
| Orders.ProductsOfKeyed | models/order.js:76-86 | with unique product ids the product aggregate is empty for an order without a product, and otherwise exactly the name and price of the product it references |
| Orders.FindByIdView | models/order.js:120-167 | with unique order ids, findById of a stored order returns it with the same extras and removals the listing shows |
| Orders.ListedView | models/order.js:71-118 | every order whose status is listed appears in the listing with its aggregates |
| Orders.ListedAfterInsert | models/order.js:71-167 | an order that findById reads back and whose status is listed appears in the listing with the same extras and removals |
| OrdersRoute.MapOrderError | pages/api/v1/orders/index.public.js:74-127 | non-database errors are rethrown unchanged; database errors map to the duplicate, missing-ingredient or missing-product errors or pass through |
| OrdersRoute.ForeignTable | pages/api/v1/orders/index.public.js:89-106 | a violation raised on one table is never recognised by the message test of another |
| OrdersRoute.MapOrderErrorCases | pages/api/v1/orders/index.public.js:89-125 | in either server language a missing ingredient in either list is reported as `ingredient_id` NotFound and a missing product as `product_id` NotFound |
| OrdersRoute.MapOrderErrorRange | pages/api/v1/orders/index.public.js:77-127 | an out-of-range or too-long error (22003 or 22001) matches neither the unique code, nor either ingredient message, nor the foreign-key code, so it is rethrown and answered 500 |
| OrdersRoute.RollbackDb | pages/api/v1/orders/index.public.js:74-75 | `ROLLBACK` restores every table's rows and keeps the sequences' advance |
| OrdersRoute.PlaceOrder | pages/api/v1/orders/index.public.js:61-132 | a failure leaves every table's rows as before; a success answers 201 with the new order and adds exactly its row and its link rows; the order id sequence advances iff every value of the order row fits its column |
| OrdersRoute.PlaceOrderSucceeds | pages/api/v1/orders/index.public.js:64-73 | an order is placed iff every value fits its column and every id it references names a stored row |
| OrdersRoute.PlaceOrderErrors | pages/api/v1/orders/index.public.js:74-127 | when every value fits, a failed placement reports the missing product if the product is missing, else a missing ingredient; an order row in range with a missing product always fails with the missing product; an order row out of range always fails with a column error answered 500 |
| OrdersRoute.PlaceOrderErrorKinds | pages/api/v1/orders/index.public.js:74-127 | a failed placement is a missing product, a missing ingredient, or a column error (22003 or 22001) answered 500; never a duplicate |
| OrdersRoute.PlaceOrderRangeOnly | pages/api/v1/orders/index.public.js:66-127 | when every referenced id names a stored row, a placement can only fail with a column error (22003 or 22001) answered 500 |
| OrdersRoute.PlaceOrderReadsBack | pages/api/v1/orders/index.public.js:66-73 | on a consistent database the placed order reads back with the requested extras and removals, and the state stays consistent |
| OrdersRoute.PlacedOrderListed | pages/api/v1/orders/index.public.js:18-73 | a placed order is "pending", so a listing that asks for pending orders shows it, with the referenced product's name and price and the requested extras and removals named from the stored ingredients |
| OrdersRoute.OrderValuesOf | models/order.js:11-17 | each of the five columns is set exactly when the validated body has that property with the right type |
| OrdersRoute.CustomisationOf | models/order.js:26-68 | each list is read exactly when present, element by element |
| OrdersRoute.OrdersPost | pages/api/v1/orders/index.public.js:45-59 | a validation failure is answered before any write |
| OrdersRoute.OrdersPostNeverPlaces | pages/api/v1/orders/index.public.js:46-54 | as written, `order_id` has no rule, so every representable body crashes with 500 and nothing is written |
| OrdersRoute.PostRequestKeys | pages/api/v1/orders/index.public.js:46-54 | the corrected request asks only catalogued keys, with product, price and table mandatory |
| OrdersRoute.CataloguedPost | pages/api/v1/orders/index.public.js:45-59 | with the corrected request, a validation failure is answered before any write |
| OrdersRoute.ValidatedValues | pages/api/v1/orders/index.public.js:45-71 | a body validated without an `order_id` rule reaches `create` with `order_id` NULL and the three numeric columns filled exactly |
| OrdersRoute.CataloguedPostValues | pages/api/v1/orders/index.public.js:45-71 | the same for the corrected request |
| OrdersRoute.CataloguedPostWithoutPrice | pages/api/v1/orders/index.public.js:46-54 | a body without a price fails with `any.required` on "price" |
| OrdersRoute.CataloguedPostUnknownProduct | pages/api/v1/orders/index.public.js:117-127 | a validated body naming an unknown product is answered 404 on `product_id` when its values are in range and 500 otherwise; no order row is stored either way |
| OrdersRoute.GetOrders | pages/api/v1/orders/index.public.js:18-43 | a success is 200 for an admin, listing exactly the orders whose status is among the comma-split values |
| OrdersRoute.AnonymousOrderListing | pages/api/v1/orders/index.public.js:18-37 | without a session a bad status gets 400 before authorization, and a valid one 403 USER_NOT_FOUND |
| Routes.Guard | pages/api/v1/categories/index.js:18-29 | `injectUser` errors come first, then validation errors, then the feature check; success iff all three pass |
| Routes.AnonymousGuard | pages/api/v1/categories/index.js:18-29 | without a session a failed validation is what the visitor sees; only a valid request meets USER_NOT_FOUND |
| Routes.StatusQueryOutcome | pages/api/v1/orders/index.public.js:26-37 | a status query validates iff every comma-separated part is in the enum; the first part that is not is reported with `any.only` |
| Routes.EmptyQuery | pages/api/v1/categories/index.js:31-42 | a query without keys fails with `object.min` on "object" |
| CategoriesRoute.MapCategoryError | pages/api/v1/categories/index.js:73-88 | a unique violation becomes CATEGORY_UNIQUENESS:ALREADY_EXISTS on "name"; other errors are rethrown |
| CategoriesRoute.PostCategory | pages/api/v1/categories/index.js:62-94 | guard failures are answered unchanged; a success is 201 with a row carrying the validated name and status "available", appended to the table; a failure writes nothing |
| CategoriesRoute.PostDuplicateCategory | pages/api/v1/categories/index.js:73-88 | an admin posting a stored name gets 400 on "name" and no row is written |
| CategoriesRoute.PostNewCategory | pages/api/v1/categories/index.js:62-93 | an admin posting a new name gets the created row, which a lookup by id then finds |
| CategoriesRoute.ValidatedNameFits | pages/api/v1/categories/index.js:52-60 | a validated category name fits `varchar(128)` and is stored unchanged |
| CategoriesRoute.ValidatedNameShape | pages/api/v1/categories/index.js:52-60 | the name a POST body validates to has the shape of the `name` rule |
| CategoriesRoute.PostedNameShape | pages/api/v1/categories/index.js:52-60 | a stored category name has the shape of the `name` rule |
| CategoriesRoute.AnonymousCategoryPost | pages/api/v1/categories/index.js:24-29 | without a session a bad body gets its validation error and a good one 403 USER_NOT_FOUND; nothing is written |
| CategoriesRoute.GetCategories | pages/api/v1/categories/index.js:31-50 | a success is 200 for an admin, listing exactly the categories with a requested status |
| CategoriesRoute.AnonymousEmptyListing | pages/api/v1/categories/index.js:35-37 | without a session and a query the listing fails with `object.min` before authorization |
| CategoriesRoute.AdminListing | pages/api/v1/categories/index.js:31-42 | an admin's listing succeeds iff every comma-separated status is a category status |
| Grouping.Flatten | pages/admin/orders/pending/index.public.js:28-44 | a row flattens iff it has a product or nothing to move; the header is the row minus the moved keys; products keep names and prices, and only `product[0]` gains keys |
| Grouping.FlattenRoundTrip | pages/admin/orders/pending/index.public.js:28-44 | the product, extras and removed lists can be read back off the entry, and a truthy observation is on `product[0]` iff it was on the row |
| Grouping.FlattenAll | pages/admin/orders/pending/index.public.js:28-44 | the map succeeds iff every row flattens, and then yields the flattened rows in order |
| Grouping.DedupSpec | pages/admin/orders/pending/index.public.js:55-57 | structural de-duplication keeps exactly the input's values, each once, in first-seen order |
| Grouping.DedupIdempotent | pages/admin/orders/pending/index.public.js:55-57 | de-duplicating twice is de-duplicating once |
| Grouping.MergedItems | pages/admin/orders/pending/index.public.js:53-58 | with both lists non-empty, every product of either list appears once and the group's first stays first; otherwise the group's list is kept |
| Grouping.Merge | pages/admin/orders/pending/index.public.js:51-90 | the group keeps its header; its products are the merged list, with `product[0]` keeping its name, price and observation |
| Grouping.MergeBothFilled | pages/admin/orders/pending/index.public.js:53-89 | the products are the union of both lists; extras on `product[0]` are the de-duplicated union when both are filled; removed ingredients are plainly concatenated |
| Grouping.MergeWithoutProducts | pages/admin/orders/pending/index.public.js:53 | a group or row without products leaves the group unchanged |
| Grouping.Step | pages/admin/orders/pending/index.public.js:46-93 | a new key opens a group at the end; a known key changes no header |
| Grouping.Group | pages/admin/orders/pending/index.public.js:46-93 | the group keys are the distinct `order_id`s in first-seen order, so there are at most as many groups as rows |
| Grouping.GroupHeaders | pages/admin/orders/pending/index.public.js:49-50 | one group per distinct `order_id`, each carrying the header (price included) of the first row with that key |
| Grouping.GroupCount | pages/admin/orders/pending/index.public.js:46-95 | the number of groups is the number of distinct `order_id`s |
| Grouping.Values | pages/admin/orders/pending/index.public.js:95 | `Object.values` holds the same groups, array-index keys first in ascending order, the others in insertion order |
| Grouping.Fetch | pages/admin/orders/pending/index.public.js:22-97 | the page's list exists iff every row flattens, and then holds exactly the groups |
| Grouping.FetchGroups | pages/admin/orders/pending/index.public.js:46-95 | one group per distinct `order_id` of the rows, no two alike, non-negative ids first in increasing order |
| Grouping.FetchKeys | pages/admin/statistics/index.public.js:28-101 | the keys of the list the statistics page builds are the `order_id`s of its rows |
| JsObject.KeyOrder | pages/admin/orders/pending/index.public.js:95 | own-property order is a reordering in which array-index keys come first, ascending, and the others keep insertion order |
| Statistics.MonthlyCounts | pages/admin/statistics/index.public.js:115-139 | twelve buckets, bucket m holding the number of groups created in month m; they sum to the number of groups |
| Statistics.TallyNames | pages/admin/statistics/index.public.js:177-187 | after the loop the tallies hold each name once, with its number of occurrences, and add up to the number of entries |
| Statistics.SeeTallied | pages/admin/statistics/index.public.js:181-185 | bumping or adding a tally keeps that invariant for one more name |
| Statistics.OrderedTallies | pages/admin/statistics/index.public.js:189-190 | reordering the tallies into key order keeps the invariant, with every count at least 1 |
| Statistics.TotalPermutation | pages/admin/statistics/index.public.js:189-190 | reordering tallies keeps their total |
| Statistics.TalliedSeries | pages/admin/statistics/index.public.js:189-192 | the names and quantities are index-aligned: distinct names, each count the name's occurrences, summing to the number of entries |
| Statistics.CountProducts | pages/admin/statistics/index.public.js:176-192 | each product name once, its quantity the number of product entries with that name (at least 1), quantities summing to all entries, names in own-key order: index names ascending, then the others in order of first occurrence |
| Statistics.SeeNames | pages/admin/statistics/index.public.js:181-185 | one more name keeps the tally names the first occurrences of the names seen |
| Statistics.NamesPicks | pages/admin/statistics/index.public.js:189-190 | picking the index or the other tallies picks the same names out of the tally names |
| Statistics.ChartData | pages/admin/statistics/index.public.js:111-193 | nothing is computed without orders; otherwise twelve month buckets summing to the groups, and product counts summing to the product entries |

## Left out

- Database driver, pool and SQL engine: tables are sequences of rows with an id counter. Statement order is modelled as PostgreSQL applies it to the driver's unnamed statements: `integer` parameters bind first; then, while the statement is planned with the bound values, the values take their `varchar(n)` and `decimal(10, 2)` types in column order. A failure at either step happens before the id is drawn and before any row is matched. Then the id is drawn, then NOT NULL in column order, CHECK, the unique index and the foreign keys. `json_agg` row order is taken as table order.
- `transaction.release()` and the un-awaited `BEGIN`/`COMMIT` are left out. The transaction is modelled as all-or-nothing.
- `models/password.js` and `models/session.js` are not part of this model. Hashing, comparison and session lookup, creation and renewal are parameters.
- Joi itself: only the catalogue's rules are encoded. The float-precision `number.unsafe` check on numeric strings and Joi's error message texts are left out.
- Floating point: numbers are reals, so a JSON number's binary rounding is left out. `precision(10, 2)` rounds to ten places, the first argument, as Joi uses it. The `decimal(10, 2)` columns are modelled: a stored price is rounded to two places, halves away from zero, and a value of 10^8 or more after rounding is a numeric field overflow.
- PostgreSQL `LOWER` is modelled under a UTF-8 locale on the ASCII, Latin-1 and Latin Extended-A letters only, including U+0130 to "i". A validated username holds no other letter.
- Users.FindByUsername: a looked-up string with a letter outside those blocks that `LOWER` folds into them, such as the Kelvin sign U+212A to "k", finds nothing in the model where PostgreSQL matches.
- `varchar(n)` columns are modelled: a longer value is 22001 unless its excess is all spaces, which are cut. Lengths count code points.
- Users.Create: the hash is taken to fit `password varchar(72)`, as `models/password.js` is not part of this model; the username always fits `varchar(30)` (Users.ValidatedUsernameFits).
- A query key given twice, which Next.js passes as an array, is left out; each query value is one string.
- `Date.getMonth` depends on the time zone and becomes a month function parameter.
- The migrations are used for these facts:
  - the NOT NULL columns of `products` (including the added `category_id`) and of `ingredients`;
  - the unique names of products, ingredients and categories;
  - the status and category CHECK constraints;
  - the foreign keys and the order in which PostgreSQL checks them;
  - the `integer` and `decimal(10, 2)` column types.
- The migration of the orders table is stale: it lacks `order_id`, `table_number` and the default status that `models/order.js` writes. The model follows `models/order.js`, takes `order_id` and `table_number` as `integer`, and drops three of that migration's facts, listed next.
- Orders.SetStatus: the NOT NULL of `status` is dropped, so an empty status list writes NULL, as the code's `status[0]` asks.
- Orders.Create: the NOT NULL of `product_id` is dropped, so an order without a product is stored. The NOT NULL of `price` and of `table` is dropped too; `table` is not a column the code writes.
- Id sequences are unbounded: a `serial` that passes 2^31 - 1 is not modelled.
- A lookup parameter outside the `integer` range (Users.FindById, Categories.FindById, Categories.Edit, Categories.SetStatus, Ingredients.FindById, Ingredients.Edit, Orders.FindById, Orders.SetStatus) answers not found in the model, where the server raises 22003 while binding.
- The 22003 and 22001 messages are modelled in English only. The error mapping tests them only for being foreign-key messages, which neither language's wording is.
- `pages/admin/orders/accepted/index.public.js` is a verbatim copy of the pending page's grouping. The one model covers both.
- JSX, `fetch`, toasts, redirects and chart rendering are left out.
- Routes that reference code which does not exist are left out: the products routes (an uncatalogued `category`, an unexported `listByCategoryAndStatus`), the ingredients POST (an unimported `product`) and the sessions DELETE (an unimported `session`).
- The users/admin, status and pictures endpoints, and `pages/api/v1/orders/index.js`, a duplicate of the orders GET, are left out.
- FieldFacts.NameShape: the model's `\p{C}` holds the control, format and private-use code points and the noncharacters, but not the other unassigned code points (the rest of `Cn`), since that set depends on the Unicode version of the JavaScript engine. A name such as "\u0378x" starts visible in the model and not in the source. Lone surrogates cannot be written as a Dafny `char`.
- FieldFacts.ObservationShape: the same `\p{C}` gap, for trailing characters.
- Text.StripTrailingBlanksAndNul: the same `\p{C}` gap, so an unassigned code point at the end is kept by the model and stripped by the source.
- FieldFacts.PictureShape: only the `http://` or `https://` prefix and a non-empty remainder free of blanks and `\p{C}` are checked, not the RFC 3986 grammar. The model accepts "http://<>" and "http://[", which the source rejects, and rejects "http:/x", which the source may accept.
- Users.CreateHasNoFeatures: the users/admin integration test expects ["admin"] after sign-up. The code strips `features` in validation, so the model follows the code.
- Statistics.CountProducts: it states the key order with `<=` rather than strict `<`, which distinctness implies. It also does not model product names such as "constructor" or "toString" that collide with `Object.prototype` properties; in the source those would read an inherited property first.

## Findings

| source | as written | input that shows it | evidently intended | confidence | as-written member | corrected member |
|---|---|---|---|---|---|---|
| models/validator.js:63-73 | the schema cache key is the requested names joined with ",", so two different key lists can share one entry | a call requesting `name` and `price`, then a call whose only key is "name,price": the second reuses the first schema instead of failing on its unknown key | the cache never changes a result: key the cache by the list of names | not executed | SchemaCache.JoinedCollision | SchemaCache.KeyedValidateTransparent |
| pages/api/v1/orders/index.public.js:46-54 | the order POST requests `order_id`, which has no catalogue rule, so `schemas[key]` is undefined and building the schema throws a TypeError (500) | any JSON body, e.g. `{"product_id": 1, "price": 5, "table_number": 2}` | validation accepts a well-formed order and the transaction places it | not executed | OrdersRoute.OrdersPostNeverPlaces | OrdersRoute.CataloguedPostValues |
| infra/migrations/1722877182561_alter-products-table.js:3-7 | `category_id` is added as NOT NULL, but the insert of models/product.js:6-16 never binds it, so every complete insert fails with 23502 | `{product_name: "x", product_category: "teas", price: 1}` | the insert binds `category_id`, which the foreign key into `categories` then checks | not executed | Products.Create | Products.CreateInCategory |
