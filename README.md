# Hackathon team registration form — Dafny model

This project models the team-registration form controller of the hackathon site
(`app/registration/page.tsx`): the state a team fills in (team name, member count, the
member records with their captain flag, the answers to the eight cases), the handlers that
edit it, the effect that keeps the member list as long as the chosen count, the string
checks (`isEmpty`, `isValidGithub`, `isValidLinkedIn`), the first-failure validation of
`handleSubmit`, the payload it sends and how it reacts to the answer.

Modules, one per concern of that file:

- `Wrappers` — `Option`, for `string | null` and "no failure".
- `Text` — JavaScript `trim()` over the ECMAScript WhiteSpace and LineTerminator sets,
  `isEmpty`, and the two anchored, case-insensitive URL patterns written as prefix
  predicates (`^https?:\/\/(www\.)?github\.com\/.+` with flag `i` is: one of four
  prefixes, compared ignoring ASCII case, followed by a character that is not a line
  terminator).
- `Team` — `Member`, `Stage`, `CASES`, `createEmptyMember`, the initial lists, the pure
  `map`-based editors (`WithMemberField`, `WithStageContent`) and `Resize`, the function
  the count-sync effect computes, with its properties.
- `Validation` — `Validate`, the ordered first-failure rule of `handleSubmit`, and lemmas
  that say exactly which error it reports for which form.
- `Submission` — the payload with the stage projection, the abstract response, and the
  error text after a failed request.
- `Registration` — class `RegistrationForm`: one field per React state variable, the
  effect as `SyncMembers` (a copy grown by a push loop, truncated or captain-stamped as in
  the source), the handlers as methods with `modifies` frames, and `handleSubmit` as
  `CheckSubmission` (the member and case loops), `BeginSubmit` (up to the request) and
  `CompleteSubmit` (after it), composed by `HandleSubmit`. `Valid()` is the invariant every
  handler keeps: the list has `count` entries, the first entry is the only captain, and
  the stages are the eight case slots in order.

The clock is a parameter `now` and the deadline a constant `deadline` of the form, both
integers on one time scale; the HTTP outcome is a `Response` input (`HttpResponse(status,
body)` or `NetworkFailure(message)`).

Two details of the code that the model keeps as written:

- The member checks run member by member (`page.tsx:144-164`): all three checks of member 1
  run before any check of member 2, so a blank field of member 2 is reported only after
  member 1 passes every check. `Validate` and `CheckMembers` do the same.
- On a shrink the effect returns at `page.tsx:110`, before the captain re-assertion at
  `page.tsx:113`. `Resize` does the same, and `ResizeKeepsCaptain` shows that the first
  member is still the only captain afterwards, because it already was.

## Model

| member | source | states |
|---|---|---|
| Text.TrimSpec | app/registration/page.tsx:54-63 | what `trim()` keeps is a slice of the string with only whitespace and line terminators around it, and it is empty or begins and ends with a kept character |
| Text.TrimIdempotent | app/registration/page.tsx:54-63 | trimming a trimmed string changes nothing |
| Text.TrimIgnoresPadding | app/registration/page.tsx:54-63 | blanks and line breaks added around a string do not change its trim |
| Text.IsEmptyIffAllTrimmable | app/registration/page.tsx:54 | `isEmpty(v)` holds exactly when every character of `v` is whitespace or a line terminator (so also for the empty string) |
| Text.BlankLinkIsInvalid | app/registration/page.tsx:54-64 | a blank link fails both the GitHub and the LinkedIn check |
| Text.ProfileChecksIgnorePadding | app/registration/page.tsx:56-64 | both link checks look at the trimmed link only: padding never changes their answer |
| Text.UntrimmedProfileUrlMatches | app/registration/page.tsx:56-64 | a link with nothing to trim that continues one of the four accepted prefixes with a non-line-break character matches |
| Text.GithubAcceptsHttpsLink | app/registration/page.tsx:56-59 | `https://github.com/<user>` is accepted for every user part that does not begin with a line break (which `.` cannot match) and does not end in a blank |
| Text.GithubAcceptsHttpWwwLink | app/registration/page.tsx:56-59 | `http://www.github.com/<user>` is accepted |
| Text.GithubIgnoresLetterCase | app/registration/page.tsx:56-59 | `HTTPS://GitHub.com/<user>` is accepted: the match ignores case |
| Text.GithubAcceptsPaddedLink | app/registration/page.tsx:56-59 | an accepted link with blanks and line breaks around it is still accepted |
| Text.LinkedInAcceptsProfileLink | app/registration/page.tsx:61-64 | `https://www.LinkedIn.com/<user>` is accepted |
| Text.MissingSchemeIsRefused | app/registration/page.tsx:56-64 | for any host, a trimmed link that does not start with `http` (in any case) matches none of the four prefixes |
| Text.OtherHostIsRefused | app/registration/page.tsx:56-64 | for any host, a link whose `http://` or `https://` is followed by neither the host nor `www.` and the host matches none of the prefixes |
| Text.BareHostIsRefused | app/registration/page.tsx:56-64 | for any host not starting with `w`, a link that is exactly one of the prefixes, with nothing after it, matches none of them: `.+` needs a character |
| Text.BareProfilePrefixIsRefused | app/registration/page.tsx:56-64 | each of the four prefixes of a lower-case host, on its own, is refused |
| Text.ProfilePrefixesNotNested | app/registration/page.tsx:56-64 | none of the four accepted prefixes is the start of a longer one, for a host not starting with `w` |
| Text.GithubRejectsMissingScheme | app/registration/page.tsx:56-59 | `github.com/alice` is refused: the scheme is required |
| Text.LinkedInRejectsMissingScheme | app/registration/page.tsx:61-64 | `linkedin.com/alice` is refused |
| Text.GithubRejectsOtherHost | app/registration/page.tsx:56-59 | `https://gitlab.com/alice` is refused |
| Text.HttpsLinkToOtherHostIsRefused | app/registration/page.tsx:56-64 | an `https` link whose host part starts with neither the host's first letter nor `w` is refused, for any host |
| Text.LinkedInRejectsOtherHost | app/registration/page.tsx:61-64 | `https://gitlab.com/alice` and the GitHub link `https://github.com/alice` are refused by the LinkedIn check |
| Text.GithubRejectsBareHost | app/registration/page.tsx:56-59 | `https://github.com/` is refused: at least one character must follow the host |
| Text.LinkedInRejectsBareHost | app/registration/page.tsx:61-64 | `https://linkedin.com/` is refused |
| Team.SetField | app/registration/page.tsx:120-124 | `{ ...m, [key]: value }` sets the one field to the value and leaves every other field and the captain flag as they were |
| Team.EmptyMember | app/registration/page.tsx:45-52 | a new member has all five text fields blank and the given captain flag |
| Team.InitialMembers | app/registration/page.tsx:88-92 | the form starts with three blank members, the first the only captain |
| Team.WithMemberField | app/registration/page.tsx:120-124 | `updateMember` keeps the length, changes only field `key` of member `index` and nothing else; an index outside the list leaves the list identical |
| Team.WithMemberFieldKeepsCaptain | app/registration/page.tsx:120-124 | editing a member's text field keeps the first member the only captain |
| Team.ResizeSpec | app/registration/page.tsx:101-116 | the synced list has exactly `count` entries; a shrink is `prev[..count]`; a growth keeps every entered member in place, appends blank non-captain members, and makes the first entry captain without touching its text fields |
| Team.ResizeKeepsCaptain | app/registration/page.tsx:101-116 | every resize keeps the first member the only captain |
| Team.ResizeRoundTrip | app/registration/page.tsx:101-116 | growing the team and shrinking it back gives exactly the members entered before |
| Team.ResizeAllPreserves | app/registration/page.tsx:101-116 | after any sequence of count changes the first member is the only captain, and members whose position stayed inside the team throughout keep their data |
| Team.InitialStages | app/registration/page.tsx:68-77 | the stages start as the eight case slots in order, each with its document and empty content |
| Team.WithStageContent | app/registration/page.tsx:126-130 | `updateStage` keeps the length, gives stage `index` the new content with its id and document unchanged, and leaves every other stage; an index outside the list changes nothing |
| Team.WithStageContentKeepsSlots | app/registration/page.tsx:126-130 | editing a case keeps the eight slots, ids `case1`..`case8` in order, with their documents |
| Validation.CheckMember | app/registration/page.tsx:147-163 | a member produces no error exactly when its fields are filled and both links are valid |
| Validation.FirstFailingMember | app/registration/page.tsx:144-164 | the member loop stops at the first member, in index order, that fails a check, every member before it passing all of them |
| Validation.CheckMemberOrder | app/registration/page.tsx:147-163 | within a member the blank-field check comes first, then GitHub, then LinkedIn, each reported with the member's 1-based position |
| Validation.MemberFailureAt | app/registration/page.tsx:144-164 | the first failing member's own first failing check is the member loop's result |
| Validation.ValidateClosedFirst | app/registration/page.tsx:133-135 | the closed-registration error is reported exactly when `now > deadline`, whatever the form holds; at the deadline itself registration is open |
| Validation.ValidateTeamNameSecond | app/registration/page.tsx:139-142 | the team-name error is reported exactly when registration is open and the name is blank, ahead of every member error |
| Validation.ValidateReportsFirstFailingMember | app/registration/page.tsx:139-164 | with registration open and a team name, the first failing member's first failing check is the result |
| Validation.MemberErrorNamesFirstFailingMember | app/registration/page.tsx:144-164 | a member error only ever names that first failing member, with the registration open and the name filled |
| Validation.ValidateCasesLast | app/registration/page.tsx:166-168 | the cases error is reported exactly when every earlier check passes and some case is blank |
| Validation.ValidateAccepts | app/registration/page.tsx:133-168 | the form may be sent exactly when registration is open, the name is filled, every member passes all checks and every case is filled |
| Validation.BlankGithubReportsIncomplete | app/registration/page.tsx:147-158 | a blank GitHub link would also fail the GitHub check, yet the member gets the "fill in all fields" error |
| Validation.Decimal | app/registration/page.tsx:154 | the member number in an error text is a non-empty string of decimal digits without a leading zero whose value, read back, is the number |
| Validation.DecimalInjective | app/registration/page.tsx:154 | different member numbers are written differently |
| Validation.MessageRevealsKind | app/registration/page.tsx:133-168 | each of the six error texts tells which check failed |
| Validation.MessageIdentifiesError | app/registration/page.tsx:133-168 | two errors with the same text are the same error: the same check and, for a member error, the same 1-based member |
| Submission.ProjectStages | app/registration/page.tsx:174 | the sent stages have the same length and, position by position, the same id and content, without the document link |
| Submission.ProjectedStagesNameCases | app/registration/page.tsx:68-77 | the sent stages of a well-formed form are eight, with ids `case1`..`case8` in order |
| Submission.ErrorTextSpec | app/registration/page.tsx:189-197 | a non-2xx response shows its body, or "Request failed" when the body is empty; a failed request shows its message or the generic text; the error shown is never empty |
| Registration.RegistrationForm.constructor | app/registration/page.tsx:82-98 | the form mounts valid: no error, not submitting, not submitted, empty name, count 3, the initial members and stages |
| Registration.RegistrationForm.SetTeamName | app/registration/page.tsx:289 | the name input sets the team name and nothing else |
| Registration.RegistrationForm.SyncMembers | app/registration/page.tsx:101-116 | the effect leaves the member list equal to `Resize` of the old list at the current count |
| Registration.RegistrationForm.SetCount | app/registration/page.tsx:299-302 | choosing 3 or 4 sets the count and, when it changed, resizes the list; the invariant holds afterwards |
| Registration.RegistrationForm.UpdateMember | app/registration/page.tsx:120-124 | the handler replaces the list with the single-field edit and keeps the invariant |
| Registration.RegistrationForm.UpdateStage | app/registration/page.tsx:126-130 | the handler replaces the stages with the single-content edit and keeps the invariant |
| Registration.RegistrationForm.CheckMemberAt | app/registration/page.tsx:147-163 | one pass of the member loop body returns the error `CheckMember` assigns: blank fields, then GitHub, then LinkedIn |
| Registration.RegistrationForm.CheckMembers | app/registration/page.tsx:144-164 | the member loop returns the first failing check of the first failing member, or none when every member passes |
| Registration.RegistrationForm.CheckCases | app/registration/page.tsx:166-168 | the case loop answers whether every case has content |
| Registration.RegistrationForm.CheckSubmission | app/registration/page.tsx:133-168 | the checks of `handleSubmit` return exactly `Validate` of the current form |
| Registration.RegistrationForm.BeginSubmit | app/registration/page.tsx:132-177 | on a failed check the error text is set, nothing is sent and `submitting` is untouched; otherwise the error is cleared, `submitting` is set, and the payload carries the name, count and members unchanged and the projected stages |
| Registration.RegistrationForm.CompleteSubmit | app/registration/page.tsx:179-200 | a 2xx response marks the team submitted; any other outcome sets the error text; `submitting` is false afterwards |
| Registration.RegistrationForm.HandleSubmit | app/registration/page.tsx:132-201 | the whole handler: a failed check changes only the error; a passing form is sent, leaves `submitting` false, and ends submitted with no error on 2xx or with the error text otherwise |

## Left out

- The request itself (`fetch`, the endpoint, headers, `JSON.stringify`, `response.text()`): network I/O. Its outcome is the `Response` input; the payload is returned as a value.
- The real clock and the local-time parsing of the deadline string: `now` and `deadline` are integers on one scale.
- Rendering: the success screen, the closed-registration banner, the PDF frames, `window.scrollTo`, styling.
- The disabled submit button (`page.tsx:492`) that prevents a second submission while one is in flight: UI concurrency. `HandleSubmit` can be called in any state.
- React scheduling: state updates take effect at once, the count effect runs inside `SetCount`, and a response arriving after the page is gone is not modelled.
- `updateMember` with the key `isCapitan`: the type allows it, but the form only passes the five text fields, which is what `Field` offers.
- Team.Resize: requires `count >= 1`; the selector only offers 3 and 4, and for a count of 0 on an empty list the source would create an object holding only the captain flag.
- Strings are sequences of Unicode scalar values, while JavaScript indexes UTF-16 code units; every whitespace and line-terminator character is in the Basic Multilingual Plane, so `trim()` and the regular-expression `.` give the same answers. The whitespace set is the Unicode space-separator list of current engines.
- The other files of the repository (landing-page sections, navigation, agenda labels, routing and build configuration): static markup and configuration with no stateable behaviour.
