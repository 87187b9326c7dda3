# Feedback Sentiment Analyzer — verified model of the client-side core

Feedback Sentiment Analyzer lets a business collect customer feedback on a
public page. The backend classifies each feedback's sentiment and suggests a
reply, and the business owner reads, edits and sends those replies from a
dashboard. This project models in Dafny the logic those pages and the
authentication context run, plus the server's two input-validation DTOs,
and proves properties of that model.

| Dafny file | module | models |
|---|---|---|
| `common.dfy` | `Common` | `Option`, and "no duplicates" on sequences |
| `client_form.dfy` | `ClientForm` | the public feedback form: category toggle, submit status |
| `registration.dfy` | `Registration` | the sign-up form: validation chain, slug normalisation |
| `server_validation.dfy` | `ServerValidation` | `CreateUserDto` and `CreateFeedbackDto` as validity predicates; how the sign-up form relates to them |
| `auth.dfy` | `Auth` | `decodeToken`, `isTokenValid`, `logout`, `isAuthenticated`, the Bearer request interceptor, the 401 response interceptor |
| `dashboard_data.dfy` | `DashboardData` | the dashboard's derived data (category ranking, sentiment chart) and its list updates (delete, edit) |
| `dashboard.dfy` | `Dashboard` | the dashboard's state: confirmation modal, sent e-mails, reply editor |
| `token_segment.dfy` | `TokenSegment` | how a token's base64url payload segment meets `atob` (see Findings) |

Code that only computes is modelled as functions and lemmas. Component state
that handlers update becomes a class whose methods change its fields:
`ClientForm.FeedbackForm`, `Auth.AuthState` and `Dashboard.DashboardState`.
The category count, which the source builds with nested loops, is a method
with loop invariants (`DashboardData.CountCategories`).

Each `async` handler is split at its `await`. The request's outcome becomes
a boolean parameter (`ok`, `posted`). What a handler reads before its `await` (the open
modal, the editor's text, the feedback list) is captured by a method that
runs at the click (`BeginConfirm`, `BeginSaveEdit`) and handed to the method
that finishes the handler. The browser's storage becomes a field:
session storage for the token, and the restored `sentEmails` list for local
storage. `Date.now()` becomes a parameter `now`, in milliseconds.
`JSON.parse(atob(...))` becomes a parameter `decode` that returns `None`
where the source throws; the JSON value it produces is `Auth.Json`.
`TokenSegment` builds such a `decode` from a model of `atob` and a JSON
parser `parse` over bytes, which stays a parameter.
class-validator's `@IsEmail` becomes a parameter `isEmail`.

## Model

| member | source | states |
|---|---|---|
| ClientForm.Without | frontend/src/pages/ClientPage.tsx:22 | the filter removes every copy of the option; every other category is kept; the list never grows |
| ClientForm.WithoutAppend | frontend/src/pages/ClientPage.tsx:22 | filtering distributes over concatenation |
| ClientForm.WithoutAbsent | frontend/src/pages/ClientPage.tsx:22 | filtering out an absent option changes nothing |
| ClientForm.WithoutNoDup | frontend/src/pages/ClientPage.tsx:22 | filtering keeps a duplicate-free list duplicate-free |
| ClientForm.WithoutIdempotent | frontend/src/pages/ClientPage.tsx:22 | filtering twice is filtering once |
| ClientForm.Toggled | frontend/src/pages/ClientPage.tsx:16-26 | afterwards the option is selected exactly when it was not before; membership of every other category is unchanged |
| ClientForm.ToggledAbsentAppends | frontend/src/pages/ClientPage.tsx:23 | an unselected option is appended at the end |
| ClientForm.ToggledPresentRemovesAll | frontend/src/pages/ClientPage.tsx:22 | a selected option is removed, all copies, and the list shrinks |
| ClientForm.ToggleTwiceRestores | frontend/src/pages/ClientPage.tsx:18-23 | selecting then deselecting an option restores the list exactly |
| ClientForm.ToggledNoDup | frontend/src/pages/ClientPage.tsx:18-23 | toggling never introduces a duplicate category |
| ClientForm.ToggledWithinOptions | frontend/src/pages/ClientPage.tsx:14-23 | toggling one of the six offered options keeps every selected category among them |
| ClientForm.FeedbackForm.constructor | frontend/src/pages/ClientPage.tsx:6-12 | the form starts empty with status IDLE |
| ClientForm.FeedbackForm.ToggleCategory | frontend/src/pages/ClientPage.tsx:16-26 | the categories become the toggled list; nothing else changes |
| ClientForm.FeedbackForm.BeginSubmit | frontend/src/pages/ClientPage.tsx:28-30 | status becomes SENDING and the submit button (line 103) is disabled |
| ClientForm.FeedbackForm.SubmitDisabled | frontend/src/pages/ClientPage.tsx:103 | the submit button is disabled exactly while the status is none of IDLE, SUCCESS and ERROR, that is while sending |
| ClientForm.FeedbackForm.FinishSubmit | frontend/src/pages/ClientPage.tsx:31-37 | status becomes SUCCESS when the post succeeded, ERROR otherwise; the button is enabled again |
| Registration.AllSlugChars | frontend/src/pages/RegisterPage.tsx:43 | true exactly when every character is in `[a-z0-9-]` |
| Registration.MatchesSlugPattern | frontend/src/pages/RegisterPage.tsx:43 | `^[a-z0-9-]+$` matches exactly the texts of at least one character, each a lower-case letter, digit or '-' |
| Registration.ToRegisterData | frontend/src/pages/RegisterPage.tsx:49-56 | the submitted data carries the form's six fields unchanged and drops the confirmation |
| Registration.Utf16Length | frontend/src/pages/RegisterPage.tsx:33 | `length` counts UTF-16 code units: between one and two per character, and exactly one per character when none is above U+FFFF |
| Registration.CheckSubmit | frontend/src/pages/RegisterPage.tsx:28-56 | with the password measured by a given length: registration is attempted exactly when the password is at least 6 long, matches its confirmation and the slug matches `^[a-z0-9-]+$`; otherwise the message of the first failing check, in source order, is shown; the message is empty exactly when registration is attempted |
| Registration.HandleSubmit | frontend/src/pages/RegisterPage.tsx:28-56 | as written: registration is attempted exactly when the password has at least 6 UTF-16 code units, matches its confirmation and the slug matches the pattern; a shorter password shows the length message |
| Registration.CorrectedHandleSubmit | frontend/src/pages/RegisterPage.tsx:33 | corrected: the same checks with the password measured in characters, as the server measures it |
| Registration.CorrectedAgreesOnBmp | frontend/src/pages/RegisterPage.tsx:33 | for a password without characters above U+FFFF the corrected handler decides exactly as the written one |
| Registration.SubmitVerdictIgnoresOtherFields | frontend/src/pages/RegisterPage.tsx:33-46 | the verdict depends only on password, confirmation and slug |
| Registration.LowerChar | frontend/src/pages/RegisterPage.tsx:195 | an upper-case letter becomes its lower-case letter (code point + 32); every other character is kept as it is; the result is never upper-case, and whitespace stays whitespace |
| Registration.ToLower | frontend/src/pages/RegisterPage.tsx:195 | same length, and each character is lowered on its own (so no upper-case letter is left and whitespace stays where it was); text without upper-case letters is unchanged |
| Registration.DropSpaces | frontend/src/pages/RegisterPage.tsx:195 | the result is what is left after a maximal leading run of whitespace |
| Registration.Collapse | frontend/src/pages/RegisterPage.tsx:195 | no whitespace is left; each character is '-' or comes from the input; never longer; empty only for empty input |
| Registration.NormalizeSlug | frontend/src/pages/RegisterPage.tsx:195 | the slug typed into the field has no upper-case letter and no whitespace |
| Registration.CollapseAppend | frontend/src/pages/RegisterPage.tsx:195 | replacing whitespace runs distributes over concatenation at a non-space boundary |
| Registration.CollapseRun | frontend/src/pages/RegisterPage.tsx:195 | a whole whitespace run becomes exactly one '-' |
| Registration.CollapseNoSpace | frontend/src/pages/RegisterPage.tsx:195 | text without whitespace is unchanged |
| Registration.NormalizeSlugIdempotent | frontend/src/pages/RegisterPage.tsx:195 | normalising an already normalised slug changes nothing |
| Registration.NormalizedSlugMatches | frontend/src/pages/RegisterPage.tsx:43 | a non-empty input made of slug characters, upper-case letters and whitespace normalises to a slug the check at line 43 accepts |
| ServerValidation.ValidCreateUser | backend/src/users/dto/create-user.dto.ts:7-30 | a valid sign-up body has all six fields as strings, an e-mail the validator accepts, a password of at least 6 characters and a non-empty slug; a password shorter than 6 makes it invalid |
| ServerValidation.ValidCreateFeedback | backend/src/feedbacks/dto/create-feedback.dto.ts:3-15 | a valid feedback body has a non-empty customer name, an e-mail the validator accepts and content of 10 to 500 characters; content outside those bounds makes it invalid |
| ServerValidation.CreateUserViolations | backend/src/users/dto/create-user.dto.ts:7-30 | no violation exactly when the DTO is valid; the password is listed exactly when it is not a string of at least 6 characters; the slug exactly when it is not a non-empty string |
| ServerValidation.CreateFeedbackViolations | backend/src/feedbacks/dto/create-feedback.dto.ts:3-15 | no violation exactly when the DTO is valid; the content is listed exactly when it is not a string of 10 to 500 characters |
| ServerValidation.LengthImpliesNonEmpty | backend/src/feedbacks/dto/create-feedback.dto.ts:13-14 | the length rule on the content already implies its non-empty rule |
| ServerValidation.ContentBoundsInclusive | backend/src/feedbacks/dto/create-feedback.dto.ts:14 | 10 and 500 characters pass; 9 and 501 fail |
| ServerValidation.FrontendPasswordMeetsServer | backend/src/users/dto/create-user.dto.ts:17 | a password without characters above U+FFFF that the sign-up form accepts meets the server's minimum length |
| ServerValidation.ServerPasswordPassesPage | backend/src/users/dto/create-user.dto.ts:17 | every password the server accepts also passes the sign-up form's length check |
| ServerValidation.AstralPasswordRejected | frontend/src/pages/RegisterPage.tsx:33 | as written: the form makes the registration call for a password of three characters above U+FFFF (six code units), and the server rejects that body for its password |
| ServerValidation.AstralPasswordDeclinedWhenCorrected | frontend/src/pages/RegisterPage.tsx:33 | corrected: the form declines that password with the length message |
| ServerValidation.FrontendSlugMeetsServer | backend/src/users/dto/create-user.dto.ts:24-26 | a slug the sign-up form accepts is a non-empty string for the server |
| ServerValidation.ServerSlugHasNoCharacterSet | backend/src/users/dto/create-user.dto.ts:24-26 | the server accepts a slug ("A B") that the sign-up form refuses |
| ServerValidation.ToDto | frontend/src/context/AuthContext.tsx:177-182 | the registration body carries all six of the form's fields unchanged |
| ServerValidation.RegisteredFormPassesServer | backend/src/users/dto/create-user.dto.ts:7-30 | a sign-up the corrected form lets through meets the server's password and slug rules, and is valid as a whole when name, company, niche and e-mail also are |
| Auth.Property | frontend/src/context/AuthContext.tsx:75 | a property exists exactly on an object that has that key, and it is that key's value |
| Auth.SplitDots | frontend/src/context/AuthContext.tsx:66 | `split('.')` yields at least one segment, none containing '.' |
| Auth.JoinSplit | frontend/src/context/AuthContext.tsx:66 | joining the segments with '.' gives back the token |
| Auth.SplitDotsAfterSegment | frontend/src/context/AuthContext.tsx:66 | a dot-free first segment is split off intact |
| Auth.SplitDotsNoDot | frontend/src/context/AuthContext.tsx:66 | a text without '.' is a single segment |
| Auth.DecodeToken | frontend/src/context/AuthContext.tsx:64-70 | a token with fewer than two segments decodes to null; otherwise the result is what `decode` makes of the second segment, or null when `decode` throws |
| Auth.DecodeReadsPayloadSegment | frontend/src/context/AuthContext.tsx:64-70 | for `header.payload.signature` only the payload segment is decoded; a decode failure gives null |
| Auth.DecodeWithoutDotIsNull | frontend/src/context/AuthContext.tsx:64-70 | a token without '.' decodes to null |
| Auth.IsTokenValid | frontend/src/context/AuthContext.tsx:72-77 | a missing or empty token is invalid; a valid one decodes to a truthy payload whose `exp` is present, truthy and numeric with `exp * 1000 > now` |
| Auth.ValidIffNotExpired | frontend/src/context/AuthContext.tsx:76 | for a numeric `exp`, valid exactly when `exp` is non-zero and `exp * 1000 > now` |
| Auth.ZeroExpNeverValid | frontend/src/context/AuthContext.tsx:75 | `exp` of 0 is falsy, so the token is never valid |
| Auth.UndecodableOrNoExpInvalid | frontend/src/context/AuthContext.tsx:74-75 | a token that does not decode, or whose payload has no `exp`, is invalid |
| Auth.ValidityMonotone | frontend/src/context/AuthContext.tsx:76 | a token valid at some time was valid at every earlier time |
| Auth.OrElse | frontend/src/context/AuthContext.tsx:209 | JavaScript `a \|\| b` on nullable strings: `a` when it is a non-empty string, else `b` |
| Auth.AuthState.constructor | frontend/src/context/AuthContext.tsx:56-62 | on mount the token is read from session storage; no user, no error |
| Auth.AuthState.CurrentToken | frontend/src/context/AuthContext.tsx:209 | a non-empty in-memory token takes precedence; otherwise the stored token is used |
| Auth.AuthState.AuthorizationHeader | frontend/src/context/AuthContext.tsx:101-108 | a header is set exactly when some token is non-empty; it is "Bearer " followed by the stored token, or else by the in-memory one |
| Auth.AuthState.Logout | frontend/src/context/AuthContext.tsx:197-202 | token, stored token, user and error are all cleared, and no header is sent |
| Auth.AuthState.PersistToken | frontend/src/context/AuthContext.tsx:79-82 | the token is stored and kept in memory, and later requests carry it |
| Auth.AuthState.IsAuthenticated | frontend/src/context/AuthContext.tsx:208-216 | the result is the validity of the current token; when valid nothing changes, otherwise the state is fully logged out |
| Auth.AuthState.OnResponseError | frontend/src/context/AuthContext.tsx:113-124 | a 401 clears the stored token, the token and the user, so no header is sent; any other error changes nothing |
| DashboardData.CountCategories | frontend/src/pages/AdminDashboard.tsx:65-72 | each category's count is its number of occurrences across all feedbacks' category lists; only mentioned categories get a key; the keys have no duplicates |
| DashboardData.CountInto | frontend/src/pages/AdminDashboard.tsx:67-71 | each category of one feedback's array adds one to its entry; the old keys stay a prefix and the keys added after them are categories that had none; no duplicate keys |
| DashboardData.InsertDesc | frontend/src/pages/AdminDashboard.tsx:73 | insertion adds exactly the new entry |
| DashboardData.InsertDescSorted | frontend/src/pages/AdminDashboard.tsx:73 | insertion keeps the counts non-increasing |
| DashboardData.InsertDescDistinct | frontend/src/pages/AdminDashboard.tsx:73 | inserting a new category keeps categories distinct |
| DashboardData.SortDesc | frontend/src/pages/AdminDashboard.tsx:73 | the sort by `b - a` is a permutation with non-increasing counts |
| DashboardData.SortDescDistinct | frontend/src/pages/AdminDashboard.tsx:73 | sorting keeps categories distinct |
| DashboardData.EntriesOf | frontend/src/pages/AdminDashboard.tsx:73 | `Object.entries` pairs each key with its count, one entry per key |
| DashboardData.TakeTop | frontend/src/pages/AdminDashboard.tsx:73 | `slice(0, 5)` keeps a prefix of at most five entries, and exactly five when there are more |
| DashboardData.LeftOutBound | frontend/src/pages/AdminDashboard.tsx:73 | an entry the slice drops means the top five is full, and the entry's count is at most the fifth one's |
| DashboardData.SortedEntryCorrect | frontend/src/pages/AdminDashboard.tsx:64-74 | every sorted entry carries its category's true occurrence count, at least 1 |
| DashboardData.MentionedCategorySorted | frontend/src/pages/AdminDashboard.tsx:64-74 | every mentioned category appears in the sorted list with its true count |
| DashboardData.TopCountsCorrect | frontend/src/pages/AdminDashboard.tsx:64-74 | every entry of the top five carries its category's true count, at least 1 |
| DashboardData.TopCoversMentioned | frontend/src/pages/AdminDashboard.tsx:64-74 | a mentioned category missing from the top five means the top five is full and its fifth count is at least that category's |
| DashboardData.RankingOfTallies | frontend/src/pages/AdminDashboard.tsx:64-74 | from correct tallies, the sorted top five has every property the ranking promises |
| DashboardData.Ranking | frontend/src/pages/AdminDashboard.tsx:64-74 | at most five entries, sorted by non-increasing count, distinct categories, each with its true count ≥ 1; a mentioned category left out means the ranking is full and its count is at most the fifth one's |
| DashboardData.Buckets | frontend/src/pages/AdminDashboard.tsx:153-157 | four slices, in order: Positivo with the POSITIVE count, Negativo with the NEGATIVE count, Neutro with the NEUTRAL count, Sem Análise with the count of the rest |
| DashboardData.KeepNonEmpty | frontend/src/pages/AdminDashboard.tsx:158 | exactly the slices with a positive value are kept, never more than there were |
| DashboardData.KeepNonEmptyAppend | frontend/src/pages/AdminDashboard.tsx:158 | the filter keeps the slices' order: it distributes over concatenation |
| DashboardData.ChartData | frontend/src/pages/AdminDashboard.tsx:153-158 | a bucket is in the chart exactly when its value is positive; at most four slices |
| DashboardData.BucketsPartition | frontend/src/pages/AdminDashboard.tsx:153-157 | the four bucket values add up to the number of feedbacks |
| DashboardData.KeepNonEmptySum | frontend/src/pages/AdminDashboard.tsx:158 | dropping empty slices keeps the total |
| DashboardData.ChartDataProperties | frontend/src/pages/AdminDashboard.tsx:153-158 | the chart's values add up to the number of feedbacks; every slice is positive; a bucket shows exactly when its value is positive; the chart is empty exactly when there are no feedbacks |
| DashboardData.UnlabelledGoesToSemAnalise | frontend/src/pages/AdminDashboard.tsx:157 | a feedback with no known sentiment label counts only under "Sem Análise" |
| DashboardData.RemoveById | frontend/src/pages/AdminDashboard.tsx:115 | exactly the feedbacks with another id are kept |
| DashboardData.RemoveByIdAppend | frontend/src/pages/AdminDashboard.tsx:115 | removal distributes over concatenation, so order is kept |
| DashboardData.RemoveByIdAbsent | frontend/src/pages/AdminDashboard.tsx:115 | removing an absent id changes nothing |
| DashboardData.ApplyEdit | frontend/src/pages/AdminDashboard.tsx:142 | same length; the matching items get the new suggested reply and nothing else changes in them; other items are unchanged |
| DashboardData.ApplyEditKeepsAggregates | frontend/src/pages/AdminDashboard.tsx:142 | editing a reply changes neither the chart nor any category count |
| Dashboard.DashboardState.constructor | frontend/src/pages/AdminDashboard.tsx:42-58 | no feedbacks, no editor, nothing in flight, no modal; sent ids as restored |
| Dashboard.DashboardState.IsSent | frontend/src/pages/AdminDashboard.tsx:303 | a card counts as sent exactly when its id occurs in the sent e-mails |
| Dashboard.DashboardState.EditButtonShown | frontend/src/pages/AdminDashboard.tsx:329 | the edit button shows exactly when no sent e-mail carries the card's id |
| Dashboard.DashboardState.SendButtonDisabled | frontend/src/pages/AdminDashboard.tsx:339 | a sent card's send button is disabled; an unsent card's exactly while its e-mail is in flight |
| Dashboard.DashboardState.ConfirmButtonDisabled | frontend/src/pages/AdminDashboard.tsx:189 | the modal's confirm button is disabled exactly while some e-mail is in flight |
| Dashboard.DashboardState.RequestDelete | frontend/src/pages/AdminDashboard.tsx:93 | the delete modal opens for that id |
| Dashboard.DashboardState.RequestEmail | frontend/src/pages/AdminDashboard.tsx:98 | the e-mail modal opens for that item and its address |
| Dashboard.DashboardState.CloseModal | frontend/src/pages/AdminDashboard.tsx:103 | no modal is open |
| Dashboard.DashboardState.BeginConfirm | frontend/src/pages/AdminDashboard.tsx:110-120 | the open modal and the current list are captured for the handler; for an e-mail the item is in flight, so its send button (line 339) and the confirm button are disabled |
| Dashboard.DashboardState.FinishConfirm | frontend/src/pages/AdminDashboard.tsx:110-127 | a delete that succeeded sets the list to the one captured at the click without that id's items and closes the modal, and one that failed changes nothing; an e-mail clears the in-flight id, and on success records the id (so the card shows as sent: no edit button at line 329, send disabled at line 339) and shows the success modal, otherwise closes the modal; the sent ids only grow |
| Dashboard.DashboardState.StartEditing | frontend/src/pages/AdminDashboard.tsx:133 | the editor opens on that item, pre-filled with its suggestion or "" |
| Dashboard.DashboardState.CancelEditing | frontend/src/pages/AdminDashboard.tsx:329 | the editor closes |
| Dashboard.DashboardState.SetEditText | frontend/src/pages/AdminDashboard.tsx:333 | the editor holds the typed text |
| Dashboard.DashboardState.BeginSaveEdit | frontend/src/pages/AdminDashboard.tsx:139-141 | the editor's text and the current list are captured when the save is clicked |
| Dashboard.DashboardState.SaveEdit | frontend/src/pages/AdminDashboard.tsx:139-145 | on success the list becomes the one captured at the click with the text sent placed in the matching items, same length, and the editor closes; on failure nothing changes |
| TokenSegment.EncodeUrl | frontend/src/context/AuthContext.tsx:66 | a token issuer's unpadded base64url is all base64url characters, with a length never 1 modulo 4 |
| TokenSegment.TildeEncodesAsDash | frontend/src/context/AuthContext.tsx:66 | a '~' byte third in a group of three encodes as '-' |
| TokenSegment.StripPadding | frontend/src/context/AuthContext.tsx:66 | `atob` drops at most two trailing '=', only from a length divisible by 4, and nothing from text that does not end in '='; the result is a prefix and only '=' was dropped; a trailing '=' on a length divisible by 4 is dropped, and a trailing "==" is dropped whole |
| TokenSegment.AtobAccepts | frontend/src/context/AuthContext.tsx:66 | text `atob` accepts has no '-' or '_', only standard base64 characters and '=' |
| TokenSegment.UrlOnlyCharRejected | frontend/src/context/AuthContext.tsx:66 | base64url text that uses '-' or '_' anywhere fails `atob` |
| TokenSegment.TildePayloadSegmentRejected | frontend/src/context/AuthContext.tsx:66 | the encoded example payload contains no '.' and fails `atob` |
| TokenSegment.AtobRejectsUndefined | frontend/src/context/AuthContext.tsx:66 | a token without '.' hands `undefined` to `atob`, which fails |
| TokenSegment.UrlPayloadRejected | frontend/src/context/AuthContext.tsx:66 | as written: the token the backend signs for the e-mail "a~b@x.co" (claims `email`, `sub` as a uuid string, `iat`, `exp`) decodes to null, whatever the JSON parser, and is invalid at every time |
| TokenSegment.CorrectedSegmentAccepted | frontend/src/context/AuthContext.tsx:66 | corrected: after translating to the standard alphabet, every base64url payload passes `atob` |
| TokenSegment.AtobDecode | frontend/src/context/AuthContext.tsx:66 | decoding gives three bytes per four characters, rounded down (the leftover bits are dropped), each a byte value |
| TokenSegment.AtobParse | frontend/src/context/AuthContext.tsx:66 | `JSON.parse(atob(s))` fails for text `atob` rejects, and otherwise parses the decoded bytes |
| TokenSegment.DecodeEncodeUrl | frontend/src/context/AuthContext.tsx:66 | translated to the standard alphabet, every base64url encoding is decodable and decodes back to the encoded bytes |
| TokenSegment.CorrectedDecodeRoundTrip | frontend/src/context/AuthContext.tsx:66 | corrected: the parser receives exactly the bytes the issuer encoded |
| TokenSegment.CorrectedTokenValid | frontend/src/context/AuthContext.tsx:66 | corrected: the same token for "a~b@x.co" is valid at every time before its `exp` |

## Left out

- HTTP calls (axios), the loading of the feedback list, the login and register flows and the profile fetch (`fetchProfile` and the token effect). They are I/O: each request's outcome is a boolean parameter of the handler that awaits it.
- The redirect to `/login`, alerts, the clipboard, timers and all rendering are left out. The only rendering modelled is the button gating: `SubmitDisabled`, `IsSent`, `EditButtonShown`, `SendButtonDisabled` and `ConfirmButtonDisabled`.
- Writing `sentEmails` to local storage as JSON is I/O and is left out. The constructor takes the restored list as given.
- `DashboardData.Ranking`: JavaScript object keys make `Object.entries` list integer-like categories first. Ties between equal counts keep insertion order. The model specifies only the non-increasing order, not the order among ties.
- Category names that collide with inherited object properties (such as "constructor") are not modelled. The model counts them like any other name.
- Lengths count characters (code points), except the sign-up page's password check, which counts UTF-16 code units (`Registration.Utf16Length`). The validator library's length also leaves U+FE0E and U+FE0F (variation selectors) out of its count; the server predicates count them as characters.
- `toLowerCase` is modelled for ASCII letters only. `\s` is modelled as space plus the ASCII control whitespace (tab to carriage return); Unicode spaces are left out.
- JSON numbers are integers. A non-numeric `exp` (a string, array or object) counts as NaN, so the token is invalid. JavaScript would coerce some of these in `exp * 1000`: a numeric string, a one-element array holding a number (`[1700000000] * 1000` is a number) and the empty array (`[] * 1000` is 0). Those coercions are not modelled.
- `JSON.parse(atob(...))` is a parameter of `Auth`. `TokenSegment` models `atob` (which texts it accepts and the bytes it returns, without its whitespace stripping); the JSON parser over those bytes stays a parameter `parse`.
- E-mail syntax (`@IsEmail`) is a parameter.
- A DTO field that is not a string is `None`.
- The backend services, the database, password hashing, JWT signing and the e-mail service are not part of this model.

## Findings

| source | as written | input that shows it | evidently intended | confidence | as-written member | corrected member |
|---|---|---|---|---|---|---|
| frontend/src/context/AuthContext.tsx:66 | the payload segment of the JWT, which is base64url without padding, is passed to `atob`, which accepts only the standard base64 alphabet | the token signed for a user with the valid e-mail `a~b@x.co`, payload `{"email":"a~b@x.co","sub":"<uuid>","iat":1700000000,"exp":1700086400}`: the '~' is the third byte of a group and encodes as '-', so `atob` throws, `decodeToken` returns null, `isTokenValid` is false even before `exp`, and `isAuthenticated` logs the user out | translate '-' to '+' and '_' to '/' before `atob`, so every well-formed payload decodes to its bytes and the token is valid until its `exp` | not executed | TokenSegment.UrlPayloadRejected | TokenSegment.CorrectedTokenValid |
| frontend/src/pages/RegisterPage.tsx:33 | the password length check counts UTF-16 code units, while the server's `@MinLength(6)` (backend/src/users/dto/create-user.dto.ts:17) counts characters, a surrogate pair as one | a password of three U+1F600 characters: six code units pass the page, which makes the registration call, and the server rejects the body (three characters) | the page measures the password the way the server does, so every password it lets through meets the server's minimum | not executed | ServerValidation.AstralPasswordRejected | ServerValidation.RegisteredFormPassesServer |
