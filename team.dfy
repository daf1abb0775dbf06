/**
 * The team's data: the member records with their captain flag, the eight case slots, and
 * the pure list operations of the registration form: creating blank members, editing one
 * field of one member or the content of one case, and the member-list resize that keeps
 * the list as long as the chosen member count.
 */
module Team {

  datatype Member = Member(
    fullName: string,
    phone: string,
    githubLink: string,
    linkedinLink: string,
    fullTimeParticipationNote: string,
    isCapitan: bool)

  /** The five text fields of a member that the form lets the user edit. */
  datatype Field = FullName | Phone | GithubLink | LinkedinLink | FullTimeParticipationNote

  function GetField(m: Member, key: Field): string {
    match key
    case FullName => m.fullName
    case Phone => m.phone
    case GithubLink => m.githubLink
    case LinkedinLink => m.linkedinLink
    case FullTimeParticipationNote => m.fullTimeParticipationNote
  }

  /** `{ ...m, [key]: value }`: the one field changes, every other field and the captain flag stay. */
  function SetField(m: Member, key: Field, value: string): (r: Member)
    ensures GetField(r, key) == value
    ensures forall other :: other != key ==> GetField(r, other) == GetField(m, other)
    ensures r.isCapitan == m.isCapitan
  {
    match key
    case FullName => m.(fullName := value)
    case Phone => m.(phone := value)
    case GithubLink => m.(githubLink := value)
    case LinkedinLink => m.(linkedinLink := value)
    case FullTimeParticipationNote => m.(fullTimeParticipationNote := value)
  }

  /** `createEmptyMember(isCapitan)`: every text field blank. */
  function EmptyMember(isCapitan: bool): (m: Member)
    ensures forall key :: GetField(m, key) == ""
    ensures m.isCapitan == isCapitan
  {
    Member("", "", "", "", "", isCapitan)
  }

  /** The team's captain is the first member and nobody else. */
  predicate CaptainInvariant(members: seq<Member>) {
    |members| > 0 && members[0].isCapitan &&
    forall i :: 1 <= i < |members| ==> !members[i].isCapitan
  }

  /** The member counts the form offers. */
  predicate IsMemberCount(count: int) {
    count == 3 || count == 4
  }

  /** The members the form starts with: a blank captain and two blank members. */
  function InitialMembers(): (members: seq<Member>)
    ensures |members| == 3 && CaptainInvariant(members)
    ensures forall i, key :: 0 <= i < |members| ==> GetField(members[i], key) == ""
  {
    [EmptyMember(true), EmptyMember(false), EmptyMember(false)]
  }

  /** `updateMember(index, key, value)`: the member at `index` gets the new field value;
      an index outside the list changes nothing. */
  function WithMemberField(members: seq<Member>, index: int, key: Field, value: string): (r: seq<Member>)
    ensures |r| == |members|
    ensures forall i :: 0 <= i < |r| && i != index ==> r[i] == members[i]
    ensures 0 <= index < |members| ==>
      GetField(r[index], key) == value && r[index].isCapitan == members[index].isCapitan &&
      forall other :: other != key ==> GetField(r[index], other) == GetField(members[index], other)
    ensures !(0 <= index < |members|) ==> r == members
  {
    seq(|members|, i requires 0 <= i < |members| =>
      if i == index then SetField(members[i], key, value) else members[i])
  }

  /** Editing a text field never moves the captaincy. */
  lemma {:induction false} WithMemberFieldKeepsCaptain(members: seq<Member>, index: int, key: Field, value: string)
    requires CaptainInvariant(members)
    ensures CaptainInvariant(WithMemberField(members, index, key, value))
  {
    var r := WithMemberField(members, index, key, value);
    assert r[0].isCapitan == members[0].isCapitan;
    forall i | 1 <= i < |r| ensures !r[i].isCapitan {
      assert r[i].isCapitan == members[i].isCapitan;
    }
  }

  /** `n` blank members that are not captain. */
  function BlankMembers(n: nat): (r: seq<Member>)
    ensures |r| == n && forall i :: 0 <= i < n ==> r[i] == EmptyMember(false)
  {
    seq(n, _ => EmptyMember(false))
  }

  /** The member list after the count-sync effect: cut to `count` when it is longer;
      otherwise padded with blank members and with the first member made captain. */
  function Resize(prev: seq<Member>, count: nat): (next: seq<Member>)
    requires count >= 1
  {
    if count < |prev| then prev[..count]
    else
      var grown := prev + BlankMembers(count - |prev|);
      grown[0 := grown[0].(isCapitan := true)]
  }

  /** What the resize keeps and adds: the length becomes `count`; a shrink is a truncation
      of the tail; growing keeps every entered member in place, appends blank non-captain
      members, and forces the captain flag on the first entry. */
  lemma {:induction false} ResizeSpec(prev: seq<Member>, count: nat)
    requires count >= 1
    ensures |Resize(prev, count)| == count
    ensures count < |prev| ==> Resize(prev, count) == prev[..count]
    ensures count >= |prev| ==>
      var next := Resize(prev, count);
      next[0].isCapitan &&
      (forall key :: GetField(next[0], key) == if prev == [] then "" else GetField(prev[0], key)) &&
      (forall i :: 1 <= i < |prev| ==> next[i] == prev[i]) &&
      (forall i :: |prev| <= i < count && i != 0 ==> next[i] == EmptyMember(false))
  {
    if count >= |prev| {
      var grown := prev + BlankMembers(count - |prev|);
      assert forall i :: |prev| <= i < count ==> grown[i] == EmptyMember(false);
      assert forall i :: 0 <= i < |prev| ==> grown[i] == prev[i];
    }
  }

  /** Every resize leaves the first member as the only captain. */
  lemma {:induction false} ResizeKeepsCaptain(prev: seq<Member>, count: nat)
    requires count >= 1 && CaptainInvariant(prev)
    ensures CaptainInvariant(Resize(prev, count))
  {
    ResizeSpec(prev, count);
  }

  /** Growing the team and shrinking it back restores exactly the members entered before. */
  lemma {:induction false} ResizeRoundTrip(prev: seq<Member>, larger: nat)
    requires CaptainInvariant(prev) && |prev| <= larger
    ensures Resize(Resize(prev, larger), |prev|) == prev
  {
    ResizeSpec(prev, larger);
    var grown := Resize(prev, larger);
    if |prev| < larger {
      ResizeSpec(grown, |prev|);
      assert grown[0] == prev[0];
    } else {
      ResizeSpec(grown, |prev|);
      assert grown == prev;
      assert grown[0] == prev[0];
    }
  }

  /** The member list after the count selector has taken each of `counts` in turn. */
  function ResizeAll(prev: seq<Member>, counts: seq<nat>): seq<Member>
    requires forall i :: 0 <= i < |counts| ==> counts[i] >= 1
    decreases |counts|
  {
    if counts == [] then prev else ResizeAll(Resize(prev, counts[0]), counts[1..])
  }

  /** After any sequence of count changes the first member is still the only captain, and
      every member whose position stayed inside the team the whole time keeps what was
      entered for them. */
  lemma {:induction false} ResizeAllPreserves(prev: seq<Member>, counts: seq<nat>, keep: nat)
    requires forall i :: 0 <= i < |counts| ==> counts[i] >= 1
    requires CaptainInvariant(prev) && keep <= |prev|
    requires forall i :: 0 <= i < |counts| ==> keep <= counts[i]
    ensures CaptainInvariant(ResizeAll(prev, counts))
    ensures |ResizeAll(prev, counts)| >= keep
    ensures forall i :: 0 <= i < keep ==> ResizeAll(prev, counts)[i] == prev[i]
    decreases |counts|
  {
    if counts != [] {
      var next := Resize(prev, counts[0]);
      ResizeSpec(prev, counts[0]);
      ResizeKeepsCaptain(prev, counts[0]);
      assert forall i :: 0 <= i < keep ==> next[i] == prev[i] by {
        if keep > 0 && counts[0] >= |prev| {
          assert next[0] == prev[0];
        }
      }
      ResizeAllPreserves(next, counts[1..], keep);
    }
  }

  datatype Stage = Stage(id: string, content: string, pdfUrl: string)

  /** A fixed case slot: its identifier and the document shown beside it. */
  datatype CaseRef = CaseRef(id: string, pdfUrl: string)

  /** `CASES`: the eight case slots, in order. */
  const Cases: seq<CaseRef> := [
    CaseRef("case1", "/pdf/case1.pdf"), CaseRef("case2", "/pdf/case2.pdf"),
    CaseRef("case3", "/pdf/case3.pdf"), CaseRef("case4", "/pdf/case4.pdf"),
    CaseRef("case5", "/pdf/case5.pdf"), CaseRef("case6", "/pdf/case6.pdf"),
    CaseRef("case7", "/pdf/case7.pdf"), CaseRef("case8", "/pdf/case8.pdf")]

  /** The stage list holds the eight case slots in order, each with its own document. */
  predicate StagesWellFormed(stages: seq<Stage>) {
    |stages| == |Cases| &&
    forall i :: 0 <= i < |stages| ==> stages[i].id == Cases[i].id && stages[i].pdfUrl == Cases[i].pdfUrl
  }

  /** `CASES.map((c) => ({ ...c, content: "" }))`. */
  function InitialStages(): (stages: seq<Stage>)
    ensures StagesWellFormed(stages) && |stages| == 8
    ensures forall i :: 0 <= i < |stages| ==> stages[i].content == ""
  {
    seq(|Cases|, i requires 0 <= i < |Cases| => Stage(Cases[i].id, "", Cases[i].pdfUrl))
  }

  /** `updateStage(index, value)`: the case at `index` gets the new content and keeps its
      identifier and document; an index outside the list changes nothing. */
  function WithStageContent(stages: seq<Stage>, index: int, value: string): (r: seq<Stage>)
    ensures |r| == |stages|
    ensures forall i :: 0 <= i < |r| && i != index ==> r[i] == stages[i]
    ensures 0 <= index < |stages| ==>
      r[index].content == value && r[index].id == stages[index].id && r[index].pdfUrl == stages[index].pdfUrl
    ensures !(0 <= index < |stages|) ==> r == stages
  {
    seq(|stages|, i requires 0 <= i < |stages| =>
      if i == index then stages[i].(content := value) else stages[i])
  }

  /** Editing a case's content keeps the eight slots, their order and their documents. */
  lemma {:induction false} WithStageContentKeepsSlots(stages: seq<Stage>, index: int, value: string)
    requires StagesWellFormed(stages)
    ensures StagesWellFormed(WithStageContent(stages, index, value))
  {
    var r := WithStageContent(stages, index, value);
    forall i | 0 <= i < |r| ensures r[i].id == Cases[i].id && r[i].pdfUrl == Cases[i].pdfUrl {
      if i == index {
        assert r[i].id == stages[i].id && r[i].pdfUrl == stages[i].pdfUrl;
      } else {
        assert r[i] == stages[i];
      }
    }
  }
}
