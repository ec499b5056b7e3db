# Login lockout, reaction toggle and request whitelisting of a social-media backend

This Dafny project models the decision logic of a small Express/Mongoose
backend for users, posts, comments and reactions, and proves properties of it.
The database, password hashing, token signing, randomness and the clock are
parameters: a stored user or post is an immutable value, the result of the
password comparison is a boolean, the reset-token hash and the token verifier
are functions passed in, and `now` is an integer number of milliseconds.

Modules, one per piece of the program:

- `Results` — `Option`, `Result`, and `AppError` (a reason plus the HTTP status the handler passes, or none).
- `JsValues` — request-body values, JavaScript truthiness, and `parseInt(a / d, 10)` as truncating division.
- `UserModel` — the user record (with the three lockout fields `wrongPassword`, `block`, `blockDate`), the schema's field constraints, `changedPasswordAfter` and `createPasswordResetToken`.
- `Auth` — the authentication controller: `isBlocked` followed by `login` (the order the login route installs them), `restrictTo`, and the bearer-token, user-lookup and password-changed checks of `protect`.
- `Whitelist` — `filterObj` / `filteredObj` as a loop over the body's keys.
- `Profile` — `updateMe`.
- `PostModel` — posts and comments, the content bounds, `createPost`, `updatePost`.
- `Reactions` — the add / switch / remove toggle on a reaction list, with `$pull` as "drop every matching element" and `$push` as "append at the end".
- `ReactionHandlers` — `makeReaction`, `commentReaction`, `commentOwner`, and writing, editing and deleting comments.

The lockout is a three-state machine. A wrong password below the threshold
increments the counter. The third consecutive wrong password blocks the account
for one hour. A correct password resets the counter. An expired block is
cleared lazily, on the next login request. `Auth.Consistent` is the
invariant every login request preserves: the counter never exceeds 2, the
block flag is set exactly when an expiry is stored, and a blocked account has
counter 2.

The reaction toggle is proved against a reference semantics. When a list holds
at most one reaction per user, the toggle equals a pointwise update of the map
from user to reaction kind: the same kind clears the slot, any other kind sets
it, and every other user's slot is kept (`Reactions.ToggleRefinesKindMap`).

Details of the program that shape the model:

- The number in the block message is `parseInt` of a quotient, so it is truncated, never rounded up; for a fresh block it is 3600 (seconds), although the message says minutes.
- A refused comment owner gets status 401.
- The moderator role is stored as the string "modrator".
- `updatePost` writes with `findByIdAndUpdate` and no `runValidators`, so an update with 501 characters of content is stored (see the last ensures of `PostModel.UpdatePost`); the value is still cast to a string.
- `editComment` saves the whole post, and saving re-validates the post's own content.
- The user schema declares none of the lockout fields, and the post schema declares `owner`, `WritenAt` and `Comments` while the controllers use `publisher`, `reacts` and `comments`. The model uses the shape the controllers use, with a new user's counter at 0.
- `updateUser` writes the body with `findByIdAndUpdate` and no validators, so a stored role can be any string; `restrictTo` compares that string as it is.
- `protect` loads the user with `findById` and the default projection, which leaves out `passwordChangedAt`; see "## Findings".

## Model

| member | source | states |
|---|---|---|
| JsValues.Truthy | controllers/authController.js:83 | a value is falsy exactly when it is null, false, 0 or the empty string |
| JsValues.TruthyField | controllers/userController.js:35 | a missing field is falsy, and a string field is truthy iff it is non-empty |
| JsValues.NatToString | models/postModel.js:5 | the decimal form of a number is non-empty, all digits, with no leading zero |
| JsValues.DecimalRoundTrip | models/postModel.js:5 | reading back the digits of a number's decimal form gives the number |
| JsValues.IntToString | models/postModel.js:5 | a negative number is written as a minus sign followed by the digits of its magnitude |
| JsValues.CastString | models/postModel.js:5 | a string path keeps strings, turns numbers and booleans into their text, takes the id of an object with a non-empty string `_id`, and refuses arrays and other objects |
| JsValues.TruncDiv | controllers/authController.js:68-71 | the shown number is the quotient truncated toward zero: for a non-negative dividend q*d <= a < q*d + d, for a negative one q*d - d < a <= q*d |
| Auth.IsBlocked | controllers/authController.js:55-77 | an expired block (expiry <= now) becomes counter 0, unblocked, no expiry, and the request proceeds; otherwise the state is untouched; the request proceeds iff the account is not blocked, and a refusal is 401 with the remaining whole minutes m, m*60000 <= expiry - now < m*60000 + 60000 |
| Auth.Login | controllers/authController.js:79-122 | a missing or falsy email or password is refused with 400 and changes nothing; an unknown email is refused with 401; a password that is not a string makes the comparison reject and changes nothing; a wrong password with counter < 2 adds exactly 1 and keeps the block fields; with counter >= 2 it blocks until now + 3600000 with the counter unchanged; the request succeeds iff credentials are present, the user exists and the password is a correct string, and then the counter is 0 |
| Auth.Attempt | routes/userRoutes.js:8 | a refusal by the block check is the whole answer of the login route; a successful login leaves the account unblocked with counter 0 |
| Auth.AttemptConsistent | controllers/authController.js:55-118 | every login request preserves the lockout invariant: counter at most 2, block flag iff an expiry is stored, blocked only at counter 2 |
| Auth.BlockedMessageIsANumber | controllers/authController.js:65-75 | under the invariant, a block refusal always reports a number of minutes, never NaN |
| Auth.ThirdFailureBlocks | controllers/authController.js:95-113 | from a fresh account, wrong passwords one and two only count (1, then 2, "incorrect password"); the third is the first to block, until one hour after it |
| Auth.LockedIgnoresCredentials | controllers/authController.js:65-75 | before the expiry, the answer does not depend on the body or on the password, is a refusal, and stores nothing |
| Auth.ExpiredBlockReopens | controllers/authController.js:58-63 | after the expiry, a correct login succeeds and leaves the account fully unlocked |
| Auth.ExpiredBlockRestartsCount | controllers/authController.js:58-63 | after the expiry, a wrong password counts as the first of three again |
| Auth.RestrictTo | controllers/authController.js:162-171 | the request passes iff the user's stored role string, whatever it is, is among the listed roles; otherwise 403 |
| Auth.RestrictToMonotone | controllers/authController.js:162-171 | a role that passes a list also passes every list that contains it |
| Auth.RouteRoles | routes/userRoutes.js:27-41 | plain users pass neither route list; a moderator may delete users but not create or edit them; an admin passes both; a stored "moderator", outside the enum, passes neither |
| Auth.BearerToken | controllers/authController.js:126-137 | a token is found only in a header starting with "Bearer"; it is non-empty and contains no space |
| Auth.BearerTokenOfHeader | controllers/authController.js:128-133 | for every header `pre + " " + token + post` (pre starts with "Bearer" and has no space, post empty or starting with a space) the result is exactly the token, or nothing when the token is empty |
| Auth.BearerTokenNeedsSpace | controllers/authController.js:128-137 | a header without a space yields no token, so the request is refused as not logged in |
| Auth.FindById | models/userModel.js:59-89 | the query finds a user iff one is stored under the id and is active; the found user equals the stored one except that `passwordChangedAt` is absent unless it was selected |
| Auth.Authenticate | controllers/authController.js:126-159 | no token means "not logged in", an unverifiable token is refused, a missing user is refused with 401, a user whose password changed after the token was issued is refused with 401, and otherwise the found user passes |
| Auth.Protect | controllers/authController.js:124-160 | as written: the request passes exactly when the token verifies and names a stored active user, who is passed without a change time; it is never refused for a password change |
| Auth.ProtectSelectingChangeTime | controllers/authController.js:143-154 | with the change time selected, a passed user is the stored active user the token names, whose password did not change after the token was issued, and every such user passes |
| Auth.StaleTokenRefused | controllers/authController.js:149-154 | with the change time selected, a token issued a whole second or more before the password change is refused with 401 |
| Auth.ProtectAcceptsStaleToken | controllers/authController.js:144-154 | as written, that same stale token passes, while the version selecting the change time refuses it |
| UserModel.ParseRole | models/userModel.js:34-38 | only the three enum strings are accepted, each read back as the role whose stored name it is |
| UserModel.ParseRoleName | models/userModel.js:34-38 | reading a role's stored name gives back that role |
| UserModel.TrimStart | models/userModel.js:11 | the result is a suffix of the input that does not start with whitespace, what was removed is all whitespace, and is empty iff the input is all whitespace |
| UserModel.TrimEnd | models/userModel.js:11 | the result is a prefix of the input that does not end with whitespace, what was removed is all whitespace, and is empty iff the input is all whitespace |
| UserModel.Trim | models/userModel.js:11 | the trimmed name has no whitespace at either end and is empty exactly when the input is all whitespace |
| UserModel.Alphanumeric | models/userModel.js:15 | an alphanumeric name is non-empty and has no whitespace at either end |
| UserModel.TrimPadded | models/userModel.js:11 | trimming whitespace-padded text returns exactly the text between the padding |
| UserModel.Lower | models/userModel.js:28 | the stored email has the same length, each ASCII capital shifted to lower case and every other character kept |
| UserModel.SchemaErrors | models/userModel.js:6-67 | the set of failing paths is empty exactly when name, age, email, role, password and passwordConfirm all meet their constraints |
| UserModel.Create | models/userModel.js:6-67 | creation fails exactly on a validation error, with the failing paths; a created user has a 5..20 character alphanumeric trimmed name, a lower-cased email, the given role string or "user" when none is given, always one of the enum's names, an age within 12..150 if any, is active, and starts unlocked with counter 0 |
| UserModel.NameBounds | models/userModel.js:7-18 | for letters and digits only, a name is valid exactly when its length is 5..20 |
| UserModel.NamePaddingIgnored | models/userModel.js:11-17 | surrounding whitespace never changes whether a name is valid |
| UserModel.SchemaBoundaries | models/userModel.js:19-58 | ages 12 and 150 and a missing age pass, 11 and 151 fail; a 9-character password passes, 8 fails; a confirmation different from the password fails |
| UserModel.ChangedPasswordAfter | models/userModel.js:99-109 | with no recorded change time the answer is always false |
| UserModel.ChangedPasswordAfterIff | models/userModel.js:101-105 | with a change time ms >= 0, a token issued at iat is stale iff (iat + 1) * 1000 <= ms, i.e. iat < trunc(ms / 1000) |
| UserModel.CreatePasswordResetToken | models/userModel.js:111-126 | the returned token is the plain one; the stored token is its hash and the expiry is now + 600000; no other field changes |
| UserModel.ResetTokenWindow | models/userModel.js:111-126 | the token handed out at time t opens the reset lookup exactly when the account is active and the time is before t + 600000 |
| UserModel.ResetTokenAccepted | controllers/authController.js:214-222 | a user without a stored reset token or expiry never matches a reset request, and neither does a deactivated account, which the find hook hides |
| UserModel.ResetTokenOnlyByHash | controllers/authController.js:214-222 | a candidate whose hash differs from the issued token's hash is never accepted |
| Whitelist.FilterObj | controllers/userController.js:5-11 | the result holds exactly the keys present in the body and allowed, each with the body's value; allowed keys absent from the body stay absent |
| Profile.UpdateMe | controllers/userController.js:33-54 | a truthy password or passwordConfirm is refused with 400; otherwise the patch is exactly the body's name and email fields, unchanged |
| PostModel.ValidateContent | models/postModel.js:4-9 | content is accepted iff it is present, not null, casts to a string, and that string has 1 to 500 characters; a string is accepted iff its length is 1..500; a missing or null content fails validation; a value that does not cast is a cast failure |
| PostModel.CreatePost | controllers/postController.js:42-51 | creation succeeds iff the content is valid; the post has that content, the requester as publisher, the schema-load instant as writtenAt, and no reactions or comments |
| PostModel.CreatePostIgnoresOtherFields | controllers/postController.js:43-46 | two bodies with the same content field create the same post, whatever else they carry |
| PostModel.WrittenAtFixedAtSchemaLoad | models/postModel.js:14-17 | the creation time has no influence: posts created at different times get the same writtenAt |
| PostModel.ContentLengthBoundary | models/postModel.js:6-8 | 500 characters are accepted; 501 characters, the empty string and a missing content are rejected |
| PostModel.UpdatePost | controllers/postController.js:64-75 | only content can change; a body without content leaves the post as it was; null is stored as null; any other value is stored as its string cast, without a length check, or is a cast failure if it does not cast; whatever creation accepts, an update stores the same way |
| Reactions.Pull | controllers/reactionController.js:60 | the result holds exactly the elements different from the pulled reaction and is no longer than the input |
| Reactions.Others | controllers/reactionController.js:68 | the result holds exactly the reactions by other users and is no longer than the input |
| Reactions.Toggle | controllers/reactionController.js:45-79 | if (u,k) is present, every (u,k) entry is removed and nothing is appended; otherwise the result is the list without any of u's reactions followed by one (u,k); with no reaction by u, that is the input plus (u,k) at the end; other users' reactions keep their order |
| Reactions.ToggleKeepsOtherUsers | controllers/reactionController.js:56-79 | the reactions of every other user are the same, in the same order |
| Reactions.ToggleOwnReactions | controllers/reactionController.js:45-79 | from a list with at most one reaction per user, u ends with none (same kind) or exactly (u,k) |
| Reactions.ToggleUnique | controllers/reactionController.js:45-79 | at most one reaction per user is preserved |
| Reactions.ToggleTwice | controllers/reactionController.js:45-79 | from a list without a reaction by u, toggling (u,k) twice gives back the original list |
| Reactions.ToggleSwitch | controllers/reactionController.js:45-79 | toggling kind a and then kind b != a leaves u with exactly the reaction (u,b) |
| Reactions.ToggleRefinesKindMap | controllers/reactionController.js:45-79 | on lists with one reaction per user, the toggle is the pointwise update of the user-to-kind map: u's slot is cleared if it held k and set to k otherwise; every other slot is kept |
| ReactionHandlers.FindComment | controllers/reactionController.js:94-96 | the index found is the first comment with that id; none is found exactly when no comment has it |
| ReactionHandlers.MakeReaction | controllers/reactionController.js:37-85 | only the post's reactions change; other users' reactions keep their order; one reaction per user is preserved and u ends with none or exactly (u,k) |
| ReactionHandlers.CommentReaction | controllers/reactionController.js:157-209 | fails exactly when no comment has the id; otherwise only the first such comment's reactions are toggled, and the post-level reactions and every other comment are unchanged |
| ReactionHandlers.CommentReactionIsLocal | controllers/reactionController.js:180-203 | a comment with another id and the post's own reactions are untouched |
| ReactionHandlers.CommentOwner | controllers/reactionController.js:87-108 | passes iff a comment with the id exists and the requester is its commenter; otherwise 401 "no comment" or 401 "only your comment" |
| ReactionHandlers.WriteComment | controllers/reactionController.js:110-123 | the old comments are kept as a prefix and one comment by the requester with the new id, the given content and no reactions is appended |
| ReactionHandlers.EditComment | controllers/reactionController.js:125-138 | a missing comment is an error; so is a post whose own content no longer has 1..500 characters, when the save re-validates it; otherwise only that comment's content is replaced, in place |
| ReactionHandlers.EditOnlyByCommenter | controllers/reactionController.js:87-138 | through the ownership gate, a missing comment or a non-commenter is refused with 401, a post with invalid content fails validation, and the commenter's edit of a valid post changes only that comment's content |
| ReactionHandlers.PullComments | controllers/reactionController.js:146 | exactly the comments that do not have both the id and the requester as commenter are kept |
| ReactionHandlers.DeleteComment | controllers/reactionController.js:140-155 | only the comments change, and they lose exactly the requester's comments with that id |
| ReactionHandlers.DeleteByStrangerIsNoOp | controllers/reactionController.js:140-155 | deleting a comment the requester did not write, or one that does not exist, leaves the post as it was |
| ReactionHandlers.WriteThenDelete | controllers/reactionController.js:110-155 | a comment written under a fresh id and then deleted by its author leaves the post as it was |

## Left out

- HTTP routing, middleware wiring, response and cookie formatting, and the promise-error wrapper; only the order `isBlocked` then `login` is kept (`Auth.Attempt`).
- Persistence: finding, populating and saving documents. A fetched user or post is an input value, and `isBlocked` is modelled only for a user that exists, since it dereferences the lookup result without checking it.
- The race between reading and updating a post's reactions: the toggle is one sequential function.
- bcrypt, JWT signing and verification, `crypto.randomBytes`, sha256 and the mailer. The password comparison is a boolean input, the verifier and the hash are function parameters, and the random token is an argument.
- `forgotPassword`'s mail delivery and its clean-up of the reset token, `resetPassword`'s password update, and the handlers `signup`, `updatePassword`, `getUser`, `updateUser`, `deleteUser`, `deleteMe`, `getAllUsers`, `getPost`, `getAllUserPosts` and `deletePost`: they are outside the modelled core. Among what they do and the model does not: `updatePassword` refuses a wrong current password with 401, `signup` stores role "user" whatever the body says, `deleteMe` sets `active` to false, and `getUser`, `updateUser` and `deleteUser` turn a missing document into an error.
- The pre-save hooks: hashing, and stamping `passwordChangedAt`. Because the early `next()` in the stamping hook has no `return`, the assignment `passwordChangedAt = Date.now() - 1000` runs on every save, including the `validateBeforeSave: false` saves of `isBlocked` and `login`; stored users are inputs, so the model does not track this stamp.
- Uniqueness of name and email: it is an index of the store, not a field check.
- `validator.isEmail` is not part of this model; its verdict is a function parameter.
- `updateMe`'s `runValidators` on the patched user.
- Auth.Login: `correct` is the verdict of the comparison of a string password, an input; the model does not look at bcrypt's hash format.
- Auth.Login: uses one clock reading, where the source reads the clock again when printing the block message; with a later second reading the printed 3600 could be 3599.
- Auth.IsBlocked: uses one clock reading for the expiry test and the message, where the source reads the clock twice.
- JsValues.TruncDiv: is exact integer truncation; the source divides in floating point, which differs only for spans far beyond any lock duration.
- UserModel.Lower: lower-cases ASCII letters only, where `toLowerCase` also maps other scripts.
- PostModel.ValidateContent: body numbers are integers only, so a fractional number's text is not represented; lengths count code points, where JavaScript counts UTF-16 units, so text beyond the Basic Multilingual Plane can be accepted here and refused by the source.
- PostModel.UpdatePost: the handler responds with the document as it was before the update; the model returns the stored post.
- UserModel.SchemaErrors: checks the form after the schema's String and Number casts, which are not modelled for the user paths; models age as an integer, so fractional ages are not represented; name and password lengths count code points, where JavaScript counts UTF-16 units, so a password of 5 characters outside the Basic Multilingual Plane passes `minlength: 9` in the source and fails here.
- Reactions.Toggle: reaction kinds are strings; the source accepts any JSON value as `react`, and since `.some` compares with `===` while `$pull` compares by value, an object or array reaction is never recognised as the same and never toggles off.
- JsValues.IntToString: writes every digit of every integer; JavaScript's `String` writes a magnitude of 10^21 or more in exponent form ("1e+21").
- JsValues.CastString: a body number is an integer here; in the source it is a double, so a number above 2^53 arrives rounded and one of magnitude 10^21 or more is cast to exponent form, and both differ from the text stored here.
- UserModel.Create: the form holds each field after the schema's cast, so a signup whose `name` is the number 123456 (cast to "123456") or whose `age` is the string "20" (cast to 20) is represented by its cast value, and a value that fails the cast is not represented.
- Auth.FindById: only `passwordChangedAt` is projected away; `password` and `active` are also `select: false` but play no part in `protect`.
- The query-selector case of `login`, where a non-string email is passed to `findOne` as it is: the lookup result is an input.
- The route wiring of the comment handlers: `ReactionHandlers.EditOwnComment` assumes the edit runs behind the `commentOwner` gate.
- The misplaced `writePost` reference of the post routes and the `Comments` / `owner` field names of the post schema.

## Findings

| source | as written | input that shows it | evidently intended | confidence | as-written member | corrected member |
|---|---|---|---|---|---|---|
| controllers/authController.js:144-154 | `User.findById(decoded.id)` loads the user with the default projection, and `passwordChangedAt` is `select: false` (models/userModel.js:59), so `changedPasswordAfter` always sees no change time and returns false | a token with `iat` = 1000 for an active user whose stored `passwordChangedAt` is 5000000 ms: the password changed about 4000 s after the token was issued, yet the request is let through | load the user with `.select('+passwordChangedAt')`, so that a token issued before the stored `passwordChangedAt` is refused with 401; because the pre-save hook stamps that field on every save (models/userModel.js:80-84), the corrected check also refuses tokens issued before any later save of the user, such as a wrong-password attempt, not only a password change | likely; not executed | Auth.Protect | Auth.ProtectSelectingChangeTime |
