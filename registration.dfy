/**
 * The registration page's state and handlers: the team name, the member count and the
 * member list kept in step with it, the eight case answers, and the submit flow with its
 * `error`, `submitting` and `isSubmitted` flags. Each React state variable is a field;
 * each setter call is an assignment to it.
 */
module Registration {
  import opened Wrappers
  import opened Text
  import opened Team
  import opened Validation
  import opened Submission

  class RegistrationForm {
    var isSubmitted: bool
    var error: Option<string>
    var teamName: string
    var count: nat
    var members: seq<Member>
    var stages: seq<Stage>
    var submitting: bool
    /** The registration deadline, on the same clock as the `now` the handlers are given. */
    const deadline: int

    /** The member list is as long as the chosen count, its first entry is the only
        captain, and the stages are the eight case slots in order. */
    ghost predicate Valid()
      reads this
    {
      IsMemberCount(count) && |members| == count && CaptainInvariant(members) &&
      StagesWellFormed(stages)
    }

    /** The state the page mounts with. */
    constructor (deadline: int)
      ensures Valid() && this.deadline == deadline
      ensures !isSubmitted && error == None && teamName == "" && !submitting
      ensures count == 3 && members == InitialMembers() && stages == InitialStages()
    {
      this.deadline := deadline;
      isSubmitted := false;
      error := None;
      teamName := "";
      count := 3;
      members := InitialMembers();
      stages := InitialStages();
      submitting := false;
    }

    /** `setTeamName(value)` from the name input. */
    method SetTeamName(value: string)
      requires Valid()
      modifies this`teamName
      ensures Valid() && teamName == value
    {
      teamName := value;
    }

    /** The count-sync effect: copy the list, push blank members up to `count`, return the
        truncated copy when the list is longer, and otherwise make the first entry captain. */
    method SyncMembers()
      requires count >= 1
      modifies this`members
      ensures members == Resize(old(members), count)
    {
      var prev := members;
      var next := prev;
      if count > |prev| {
        var i := |prev|;
        while i < count
          invariant |prev| <= i <= count
          invariant next == prev + BlankMembers(i - |prev|)
        {
          assert BlankMembers(i - |prev|) + [EmptyMember(false)] == BlankMembers(i + 1 - |prev|);
          next := next + [EmptyMember(false)];
          i := i + 1;
        }
      }
      if count < |prev| {
        members := next[..count];
        return;
      }
      assert next == prev + BlankMembers(count - |prev|);
      next := next[0 := next[0].(isCapitan := true)];
      members := next;
    }

    /** `setCount(c)` from the member-count selector; the effect runs when the count changes. */
    method SetCount(c: int)
      requires Valid() && IsMemberCount(c)
      modifies this`count, this`members
      ensures Valid() && count == c
      ensures members == if c == old(count) then old(members) else Resize(old(members), c)
    {
      if c != count {
        count := c;
        SyncMembers();
        ResizeKeepsCaptain(old(members), c);
      }
    }

    /** `updateMember(index, key, value)` from a member's text input. */
    method UpdateMember(index: int, key: Field, value: string)
      requires Valid()
      modifies this`members
      ensures Valid() && members == WithMemberField(old(members), index, key, value)
    {
      WithMemberFieldKeepsCaptain(members, index, key, value);
      members := WithMemberField(members, index, key, value);
    }

    /** `updateStage(index, value)` from a case's text area. */
    method UpdateStage(index: int, value: string)
      requires Valid()
      modifies this`stages
      ensures Valid() && stages == WithStageContent(old(stages), index, value)
    {
      WithStageContentKeepsSlots(stages, index, value);
      stages := WithStageContent(stages, index, value);
    }

    /** The body of the member loop of `handleSubmit` for the member at 1-based `position`:
        its fields, then its GitHub link, then its LinkedIn link. */
    method CheckMemberAt(m: Member, position: nat) returns (failure: Option<ValidationError>)
      ensures failure == CheckMember(m, position)
    {
      if HasBlankField(m) {
        return Some(IncompleteMember(position));
      }
      if !IsValidGithub(m.githubLink) {
        return Some(InvalidGithub(position));
      }
      if !IsValidLinkedIn(m.linkedinLink) {
        return Some(InvalidLinkedIn(position));
      }
      return None;
    }

    /** The member loop of `handleSubmit`: each member's checks all run before the next
        member is looked at, and the first failure ends the loop. */
    method CheckMembers() returns (failure: Option<ValidationError>)
      ensures failure == MemberFailure(members)
    {
      var i := 0;
      while i < |members|
        invariant 0 <= i <= |members|
        invariant FirstFailingMember(members, 0) == FirstFalse(Verdicts(members), i)
      {
        failure := CheckMemberAt(members[i], i + 1);
        if failure.Some? {
          return;
        }
        i := i + 1;
      }
      return None;
    }

    /** The case loop of `handleSubmit`: true when every case has content. */
    method CheckCases() returns (filled: bool)
      ensures filled == AllCasesFilled(stages)
    {
      var j := 0;
      while j < |stages|
        invariant 0 <= j <= |stages|
        invariant forall t :: 0 <= t < j ==> !IsEmpty(stages[t].content)
      {
        if IsEmpty(stages[j].content) {
          return false;
        }
        j := j + 1;
      }
      return true;
    }

    /** The checks at the top of `handleSubmit`, in order: the deadline, the team name, the
        members, the cases. The first failure is returned. */
    method CheckSubmission(now: int) returns (failure: Option<ValidationError>)
      ensures failure == Validate(now, deadline, teamName, members, stages)
    {
      if IsRegistrationClosed(now, deadline) {
        return Some(RegistrationClosed);
      }
      if IsEmpty(teamName) {
        return Some(MissingTeamName);
      }
      failure := CheckMembers();
      if failure.Some? {
        return;
      }
      var filled := CheckCases();
      if !filled {
        return Some(IncompleteCases);
      }
      return None;
    }

    /** `handleSubmit` up to the request: on a failed check the error text is set and nothing
        is sent; otherwise the error is cleared, the payload is built and `submitting` is set. */
    method BeginSubmit(now: int) returns (payload: Option<Payload>)
      requires Valid()
      modifies this`error, this`submitting
      ensures Valid()
      ensures var failure := Validate(now, deadline, teamName, members, stages);
        if failure.Some? then
          payload == None && error == Some(Message(failure.value)) && submitting == old(submitting)
        else
          payload == Some(Payload(teamName, count, members, ProjectStages(stages))) &&
          error == None && submitting
    {
      var failure := CheckSubmission(now);
      if failure.Some? {
        error := Some(Message(failure.value));
        return None;
      }
      error := None;
      payload := Some(Payload(teamName, count, members, ProjectStages(stages)));
      submitting := true;
    }

    /** `handleSubmit` after the request: a 2xx response marks the team as submitted, any
        other outcome sets the error text, and `submitting` is cleared either way. */
    method CompleteSubmit(response: Response)
      requires Valid()
      modifies this`isSubmitted, this`error, this`submitting
      ensures Valid() && !submitting
      ensures Accepted(response) ==> isSubmitted && error == old(error)
      ensures !Accepted(response) ==> isSubmitted == old(isSubmitted) && error == Some(ErrorText(response))
    {
      if Accepted(response) {
        isSubmitted := true;
      } else {
        error := Some(ErrorText(response));
      }
      submitting := false;
    }

    /** The whole of `handleSubmit`, with `response` standing for how the request ends.
        Returns what was sent, if anything. */
    method HandleSubmit(now: int, response: Response) returns (payload: Option<Payload>)
      requires Valid()
      modifies this`isSubmitted, this`error, this`submitting
      ensures Valid()
      ensures var failure := Validate(now, deadline, teamName, members, stages);
        if failure.Some? then
          payload == None && error == Some(Message(failure.value)) &&
          submitting == old(submitting) && isSubmitted == old(isSubmitted)
        else
          payload == Some(Payload(teamName, count, members, ProjectStages(stages))) && !submitting &&
          (Accepted(response) ==> isSubmitted && error == None) &&
          (!Accepted(response) ==> isSubmitted == old(isSubmitted) && error == Some(ErrorText(response)))
    {
      payload := BeginSubmit(now);
      if payload.Some? {
        CompleteSubmit(response);
      }
    }
  }
}
