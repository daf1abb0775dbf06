/**
 * The checks `handleSubmit` runs before anything is sent: the deadline gate, the team
 * name, each member's fields and links (member by member, in index order), and the eight
 * cases. The first failing check decides the error; `Validate` is that rule as a function,
 * and the lemmas below characterise exactly which error it reports.
 */
module Validation {
  import opened Wrappers
  import opened Text
  import opened Team

  /** The form's validation errors; member positions are 1-based, as shown to the user. */
  datatype ValidationError =
    | RegistrationClosed
    | MissingTeamName
    | IncompleteMember(position: nat)
    | InvalidGithub(position: nat)
    | InvalidLinkedIn(position: nat)
    | IncompleteCases

  /** `isRegistrationClosed()`, with the clock reading `now` passed in: closed strictly after the deadline. */
  predicate IsRegistrationClosed(now: int, deadline: int) {
    now > deadline
  }

  /** One of the member's five text fields is blank. */
  predicate HasBlankField(m: Member) {
    IsEmpty(m.fullName) || IsEmpty(m.phone) || IsEmpty(m.githubLink) ||
    IsEmpty(m.linkedinLink) || IsEmpty(m.fullTimeParticipationNote)
  }

  /** The member passes all three of its checks. */
  predicate MemberPasses(m: Member) {
    !HasBlankField(m) && IsValidGithub(m.githubLink) && IsValidLinkedIn(m.linkedinLink)
  }

  /** The checks of one member, in the order the loop body runs them. */
  function CheckMember(m: Member, position: nat): (e: Option<ValidationError>)
    ensures e == None <==> MemberPasses(m)
  {
    if HasBlankField(m) then Some(IncompleteMember(position))
    else if !IsValidGithub(m.githubLink) then Some(InvalidGithub(position))
    else if !IsValidLinkedIn(m.linkedinLink) then Some(InvalidLinkedIn(position))
    else None
  }

  predicate AllPassFrom(members: seq<Member>, from: nat, to: nat) {
    forall j :: from <= j < to && j < |members| ==> MemberPasses(members[j])
  }

  /** Whether each member passes all of its checks, in list order. */
  function Verdicts(members: seq<Member>): (v: seq<bool>)
    ensures |v| == |members|
    ensures forall j :: 0 <= j < |v| ==> v[j] == MemberPasses(members[j])
  {
    seq(|members|, j requires 0 <= j < |members| => MemberPasses(members[j]))
  }

  /** The first index, from `from` on, holding `false`, or the length when there is none. */
  function FirstFalse(v: seq<bool>, from: nat): (k: nat)
    requires from <= |v|
    ensures from <= k <= |v|
    ensures forall j :: from <= j < k ==> v[j]
    ensures k < |v| ==> !v[k]
    decreases |v| - from
  {
    if from == |v| || !v[from] then from else FirstFalse(v, from + 1)
  }

  /** The index of the first member, from `from` on, that fails one of its checks, or the
      length of the list when every one of them passes. */
  function FirstFailingMember(members: seq<Member>, from: nat): (k: nat)
    requires from <= |members|
    ensures from <= k <= |members|
    ensures AllPassFrom(members, from, k)
    ensures k < |members| ==> !MemberPasses(members[k])
  {
    FirstFalse(Verdicts(members), from)
  }

  /** The error of the member loop: the first failing check of the first member that fails one. */
  function MemberFailure(members: seq<Member>): Option<ValidationError> {
    var k := FirstFailingMember(members, 0);
    if k < |members| then CheckMember(members[k], k + 1) else None
  }

  /** Every case has some content. */
  predicate AllCasesFilled(stages: seq<Stage>) {
    forall i :: 0 <= i < |stages| ==> !IsEmpty(stages[i].content)
  }

  /** The error `handleSubmit` reports for this snapshot of the form, or None when it may be sent. */
  function Validate(now: int, deadline: int, teamName: string, members: seq<Member>, stages: seq<Stage>): Option<ValidationError> {
    if IsRegistrationClosed(now, deadline) then Some(RegistrationClosed)
    else if IsEmpty(teamName) then Some(MissingTeamName)
    else if MemberFailure(members) != None then MemberFailure(members)
    else if !AllCasesFilled(stages) then Some(IncompleteCases)
    else None
  }

  /** The deadline gate comes first: after the deadline nothing else matters, and at the
      deadline itself registration is still open. */
  lemma ValidateClosedFirst(now: int, deadline: int, teamName: string, members: seq<Member>, stages: seq<Stage>)
    ensures Validate(now, deadline, teamName, members, stages) == Some(RegistrationClosed) <==> now > deadline
  {
  }

  /** The team-name check comes second, ahead of every member check. */
  lemma ValidateTeamNameSecond(now: int, deadline: int, teamName: string, members: seq<Member>, stages: seq<Stage>)
    ensures Validate(now, deadline, teamName, members, stages) == Some(MissingTeamName) <==>
      now <= deadline && IsEmpty(teamName)
  {
  }

  /** The form may be sent exactly when registration is open, the team is named, every
      member passes every check and every case is filled. */
  lemma ValidateAccepts(now: int, deadline: int, teamName: string, members: seq<Member>, stages: seq<Stage>)
    ensures Validate(now, deadline, teamName, members, stages) == None <==>
      now <= deadline && !IsEmpty(teamName) && AllPassFrom(members, 0, |members|) && AllCasesFilled(stages)
  {
  }

  /** Within one member the checks run blank fields first, then GitHub, then LinkedIn,
      and whichever fails first is reported with the member's position. */
  lemma CheckMemberOrder(m: Member, position: nat)
    ensures CheckMember(m, position) == Some(IncompleteMember(position)) <==> HasBlankField(m)
    ensures CheckMember(m, position) == Some(InvalidGithub(position)) <==>
      !HasBlankField(m) && !IsValidGithub(m.githubLink)
    ensures CheckMember(m, position) == Some(InvalidLinkedIn(position)) <==>
      !HasBlankField(m) && IsValidGithub(m.githubLink) && !IsValidLinkedIn(m.linkedinLink)
    ensures CheckMember(m, position) != None ==> CheckMember(m, position).value.position == position
  {
  }

  /** The member at `position` decides the member loop's result when it is the first
      member, in index order, that fails a check. */
  lemma {:induction false} MemberFailureAt(members: seq<Member>, position: nat)
    requires 1 <= position <= |members|
    requires AllPassFrom(members, 0, position - 1) && !MemberPasses(members[position - 1])
    ensures MemberFailure(members) == CheckMember(members[position - 1], position)
  {
    var k := FirstFailingMember(members, 0);
    assert k == position - 1;
  }

  /** Once registration is open and the team is named, that member decides the result. */
  lemma {:induction false} ValidateReportsFirstFailingMember(now: int, deadline: int, teamName: string, members: seq<Member>, stages: seq<Stage>, position: nat)
    requires now <= deadline && !IsEmpty(teamName) && 1 <= position <= |members|
    requires AllPassFrom(members, 0, position - 1) && !MemberPasses(members[position - 1])
    ensures Validate(now, deadline, teamName, members, stages) == CheckMember(members[position - 1], position)
  {
    MemberFailureAt(members, position);
  }

  /** Conversely, a member error only ever names that first failing member. */
  lemma {:induction false} MemberErrorNamesFirstFailingMember(now: int, deadline: int, teamName: string, members: seq<Member>, stages: seq<Stage>, e: ValidationError)
    requires Validate(now, deadline, teamName, members, stages) == Some(e)
    requires e.IncompleteMember? || e.InvalidGithub? || e.InvalidLinkedIn?
    ensures now <= deadline && !IsEmpty(teamName) && 1 <= e.position <= |members|
    ensures AllPassFrom(members, 0, e.position - 1)
    ensures CheckMember(members[e.position - 1], e.position) == Some(e)
  {
    assert !IsRegistrationClosed(now, deadline) && !IsEmpty(teamName);
    assert MemberFailure(members) == Some(e);
    var k := FirstFailingMember(members, 0);
    CheckMemberOrder(members[k], k + 1);
  }

  /** The case check comes last: it is reported only when every earlier check passes. */
  lemma ValidateCasesLast(now: int, deadline: int, teamName: string, members: seq<Member>, stages: seq<Stage>)
    ensures Validate(now, deadline, teamName, members, stages) == Some(IncompleteCases) <==>
      now <= deadline && !IsEmpty(teamName) && AllPassFrom(members, 0, |members|) && !AllCasesFilled(stages)
  {
  }

  /** A member with a blank GitHub link gets the "fill in all fields" error, never the
      GitHub error, although the blank link would also fail the GitHub check. */
  lemma {:induction false} BlankGithubReportsIncomplete(m: Member, position: nat)
    requires IsEmpty(m.githubLink)
    ensures !IsValidGithub(m.githubLink)
    ensures CheckMember(m, position) == Some(IncompleteMember(position))
  {
    BlankLinkIsInvalid(m.githubLink);
  }

  /** The value of a decimal digit; any other character reads as 0. */
  function DigitValue(c: char): nat {
    if '0' <= c <= '9' then c as int - '0' as int else 0
  }

  /** The number a string of decimal digits denotes, read most significant digit first. */
  function DigitsValue(s: string): nat {
    if s == [] then 0 else 10 * DigitsValue(s[..|s| - 1]) + DigitValue(s[|s| - 1])
  }

  /** The decimal digits of `n`, as `${n}` writes them: digits only, no leading zero, and
      reading them back gives `n`. */
  function Decimal(n: nat): (s: string)
    ensures |s| > 0 && forall i :: 0 <= i < |s| ==> '0' <= s[i] <= '9'
    ensures DigitsValue(s) == n
    ensures s[0] == '0' <==> n == 0
    ensures |s| > 1 ==> s[0] != '0'
  {
    var d := ['0' + (n % 10) as char];
    if n < 10 then d
    else
      var r := Decimal(n / 10);
      assert (r + d)[..|r + d| - 1] == r;
      r + d
  }

  /** Different numbers are written differently. */
  lemma {:induction false} DecimalInjective(a: nat, b: nat)
    requires Decimal(a) == Decimal(b)
    ensures a == b
  {
  }

  /** The text the form shows for each validation error. */
  function Message(e: ValidationError): string {
    match e
    case RegistrationClosed => ClosedText
    case MissingTeamName => MissingTeamNameText
    case IncompleteMember(position) => IncompleteMemberText + Decimal(position)
    case InvalidGithub(position) => InvalidGithubText + Decimal(position)
    case InvalidLinkedIn(position) => InvalidLinkedInText + Decimal(position)
    case IncompleteCases => IncompleteCasesText
  }

  const ClosedText := "Регистрация закрыта. Приём заявок завершён."
  const MissingTeamNameText := "Введите название команды"
  const IncompleteCasesText := "Заполните все 8 кейсов"

  const IncompleteMemberText := "Заполните все поля: Участник "
  const InvalidGithubText := "Некорректный GitHub: Участник "
  const InvalidLinkedInText := "Некорректный LinkedIn: Участник "

  /** Which of the six errors a message reports, read off three of its characters. */
  function MessageKind(s: string): nat
    requires |s| > 14
  {
    if s[0] == 'Р' then 0
    else if s[0] == 'В' then 1
    else if s[0] == 'З' then (if s[14] == 'п' then 2 else 5)
    else if s[13] == 'G' then 3
    else 4
  }

  function ErrorKind(e: ValidationError): nat {
    match e
    case RegistrationClosed => 0
    case MissingTeamName => 1
    case IncompleteMember(_) => 2
    case InvalidGithub(_) => 3
    case InvalidLinkedIn(_) => 4
    case IncompleteCases => 5
  }

  /** The three fixed messages are told apart by their characters. */
  lemma FixedMessageKinds()
    ensures |ClosedText| > 14 && MessageKind(ClosedText) == 0
    ensures |MissingTeamNameText| > 14 && MessageKind(MissingTeamNameText) == 1
    ensures |IncompleteCasesText| > 14 && MessageKind(IncompleteCasesText) == 5
  {
    assert ClosedText[0] == 'Р' && MissingTeamNameText[0] == 'В';
    assert IncompleteCasesText[0] == 'З' && IncompleteCasesText[14] == '8';
  }

  /** A member error's message is its fixed text followed by the member's number; the
      characters that tell the kinds apart lie in the fixed text. */
  lemma {:induction false} MemberMessageKind(prefix: string, position: nat)
    requires prefix == IncompleteMemberText || prefix == InvalidGithubText || prefix == InvalidLinkedInText
    ensures |prefix + Decimal(position)| > 14
    ensures MessageKind(prefix + Decimal(position)) == MessageKind(prefix)
  {
    var s := prefix + Decimal(position);
    assert s[0] == prefix[0] && s[13] == prefix[13] && s[14] == prefix[14];
  }

  /** The three member messages are told apart by their fixed texts. */
  lemma MemberMessageKinds()
    ensures |IncompleteMemberText| > 14 && MessageKind(IncompleteMemberText) == 2
    ensures |InvalidGithubText| > 14 && MessageKind(InvalidGithubText) == 3
    ensures |InvalidLinkedInText| > 14 && MessageKind(InvalidLinkedInText) == 4
  {
    assert IncompleteMemberText[0] == 'З' && IncompleteMemberText[14] == 'п';
    assert InvalidGithubText[0] == 'Н' && InvalidGithubText[13] == 'G';
    assert InvalidLinkedInText[0] == 'Н' && InvalidLinkedInText[13] == 'L';
  }

  /** The message reveals which error it reports. */
  lemma {:induction false} MessageRevealsKind(e: ValidationError)
    ensures |Message(e)| > 14 && MessageKind(Message(e)) == ErrorKind(e)
  {
    FixedMessageKinds();
    MemberMessageKinds();
    match e
    case IncompleteMember(p) => MemberMessageKind(IncompleteMemberText, p);
    case InvalidGithub(p) => MemberMessageKind(InvalidGithubText, p);
    case InvalidLinkedIn(p) => MemberMessageKind(InvalidLinkedInText, p);
    case _ =>
  }

  /** The text after a fixed prefix. */
  lemma {:induction false} SuffixAfterPrefix(p: string, a: string, b: string)
    requires p + a == p + b
    ensures a == b
  {
    assert a == (p + a)[|p|..];
    assert b == (p + b)[|p|..];
  }

  /** The error text identifies the error: its kind and, for a member error, the member's
      1-based position. */
  lemma {:induction false} MessageIdentifiesError(e1: ValidationError, e2: ValidationError)
    requires Message(e1) == Message(e2)
    ensures e1 == e2
  {
    MessageRevealsKind(e1);
    MessageRevealsKind(e2);
    match e1
    case IncompleteMember(p1) =>
      SuffixAfterPrefix(IncompleteMemberText, Decimal(p1), Decimal(e2.position));
      DecimalInjective(p1, e2.position);
    case InvalidGithub(p1) =>
      SuffixAfterPrefix(InvalidGithubText, Decimal(p1), Decimal(e2.position));
      DecimalInjective(p1, e2.position);
    case InvalidLinkedIn(p1) =>
      SuffixAfterPrefix(InvalidLinkedInText, Decimal(p1), Decimal(e2.position));
      DecimalInjective(p1, e2.position);
    case _ =>
  }
}
